/**
 * The three tasks of one process (two `stream_output` tasks and `watch_exit`)
 * interleaving on the locked entry. Every atomic section is one action; a run
 * is any sequence of enabled actions. The process id is never reused.
 */
module ProcessTasks {
  import opened Basics
  import opened ProcessLog

  /** Where a `stream_output` task stands. */
  datatype StreamPc = Receiving | Notifying | Finishing | Checking | Ended

  /** Where `watch_exit` stands; `Aborted` is its early return after a failed notification. */
  datatype ExitPc =
    | Waiting
    | ExitNotifying(code: int)
    | ExitChecking(code: int)
    | Sleeping(code: int)
    | Removed
    | Aborted

  datatype Task = Out | Err

  /** A numbered event, in the order the numbers were assigned under the lock. */
  datatype Event =
    | OutputEvent(chunk: Chunk)
    | ExitEvent(exitSeq: nat)
    | CloseEvent(closeSeq: nat)

  /** `quietAtExit` records whether both stream tasks had ended when the exit was recorded. */
  datatype System = System(
    tty: bool,
    entry: Option<Process>,
    outTask: StreamPc,
    errTask: StreamPc,
    exitTask: ExitPc,
    events: seq<Event>,
    quietAtExit: bool)

  datatype Action =
    | Receive(task: Task, bytes: seq<byte>)
    | StreamEnds(task: Task)
    | NotifyOutput(task: Task, ok: bool)
    | Finish(task: Task)
    | CheckAfterStream(task: Task)
    | Exit(code: int)
    | NotifyExit(ok: bool)
    | CheckAfterExit
    | Remove
    | Shutdown

  function Number(e: Event): nat {
    match e
    case OutputEvent(c) => c.seqNo
    case ExitEvent(n) => n
    case CloseEvent(n) => n
  }

  /** Every chunk ever appended, in order. */
  function History(events: seq<Event>): seq<Chunk> {
    if events == [] then []
    else
      var last := events[|events| - 1];
      var earlier := History(events[..|events| - 1]);
      if last.OutputEvent? then earlier + [last.chunk] else earlier
  }

  function Init(tty: bool): System {
    System(tty, Some(Process([], 0, 1, None, 2, false)), Receiving, Receiving, Waiting, [], false)
  }

  function Pc(s: System, t: Task): StreamPc {
    if t.Out? then s.outTask else s.errTask
  }

  function Goto(s: System, t: Task, pc: StreamPc): System {
    if t.Out? then s.(outTask := pc) else s.(errTask := pc)
  }

  function StreamOf(s: System, t: Task): Stream {
    if s.tty then Pty else if t.Out? then Stdout else Stderr
  }

  predicate Enabled(s: System, a: Action) {
    match a
    case Receive(t, _) => Pc(s, t) == Receiving
    case StreamEnds(t) => Pc(s, t) == Receiving
    case NotifyOutput(t, _) => Pc(s, t) == Notifying
    case Finish(t) => Pc(s, t) == Finishing
    case CheckAfterStream(t) => Pc(s, t) == Checking
    case Exit(_) => s.exitTask == Waiting
    case NotifyExit(_) => s.exitTask.ExitNotifying?
    case CheckAfterExit => s.exitTask.ExitChecking?
    case Remove => s.exitTask.Sleeping?
    case Shutdown => true
  }

  /** `maybe_emit_closed`. */
  function CheckClose(s: System): System {
    if s.entry.Some? && ReadyToClose(s.entry.value) then
      s.(entry := Some(Closed(s.entry.value)), events := s.events + [CloseEvent(s.entry.value.nextSeq)])
    else s
  }

  function Next(s: System, a: Action): System
    requires Enabled(s, a)
  {
    match a
    case Receive(t, bytes) =>
      if s.entry.None? then Goto(s, t, Finishing)
      else
        var p := s.entry.value;
        var chunk := Chunk(p.nextSeq, StreamOf(s, t), bytes);
        Goto(s, t, Notifying).(
          entry := Some(Appended(p, chunk.stream, bytes)),
          events := s.events + [OutputEvent(chunk)])
    case StreamEnds(t) => Goto(s, t, Finishing)
    case NotifyOutput(t, ok) => Goto(s, t, if ok then Receiving else Finishing)
    case Finish(t) =>
      if s.entry.None? then Goto(s, t, Ended)
      else Goto(s, t, Checking).(entry := Some(StreamFinished(s.entry.value)))
    case CheckAfterStream(t) => Goto(CheckClose(s), t, Ended)
    case Exit(code) =>
      if s.entry.None? then s.(exitTask := ExitChecking(code))
      else
        var p := s.entry.value;
        s.(entry := Some(Exited(p, code)), exitTask := ExitNotifying(code), events := s.events + [ExitEvent(p.nextSeq)],
           quietAtExit := s.outTask.Ended? && s.errTask.Ended?)
    case NotifyExit(ok) => s.(exitTask := if ok then ExitChecking(s.exitTask.code) else Aborted)
    case CheckAfterExit => CheckClose(s).(exitTask := Sleeping(s.exitTask.code))
    case Remove =>
      if s.entry.Some? && s.entry.value.exitCode == Some(s.exitTask.code)
      then s.(entry := None, exitTask := Removed)
      else s.(exitTask := Removed)
    case Shutdown => s.(entry := None)
  }

  ghost predicate Steps(s: System, s': System) {
    exists a :: Enabled(s, a) && s' == Next(s, a)
  }

  ghost predicate Run(trace: seq<System>) {
    && trace != []
    && trace[0] == Init(trace[0].tty)
    && forall i :: 0 <= i < |trace| - 1 ==> Steps(trace[i], trace[i + 1])
  }

  // ----------------------------------------------------------- invariant

  function Open(pc: StreamPc): nat {
    if pc.Receiving? || pc.Notifying? || pc.Finishing? then 1 else 0
  }

  /** How far an event list got; `Broken` when a number or the order is wrong. */
  datatype Phase = Live | AfterExit | AfterClose | Broken

  function PhaseOf(events: seq<Event>): Phase {
    if events == [] then Live
    else
      var last := events[|events| - 1];
      if Number(last) != |events| then Broken
      else
        match (PhaseOf(events[..|events| - 1]), last)
        case (Live, OutputEvent(_)) => Live
        case (Live, ExitEvent(_)) => AfterExit
        case (AfterExit, OutputEvent(_)) => AfterExit
        case (AfterExit, CloseEvent(_)) => AfterClose
        case _ => Broken
  }

  predicate EntryInv(s: System, p: Process) {
    && Logs(p, History(s.events))
    && p.nextSeq == |s.events| + 1
    && p.openStreams == Open(s.outTask) + Open(s.errTask)
    && PhaseOf(s.events) == (if p.closed then AfterClose else if p.exitCode.Some? then AfterExit else Live)
    && (p.closed ==> p.openStreams == 0 && p.exitCode.Some?)
    && (p.exitCode.None? <==> s.exitTask.Waiting?)
    // whoever still has to run its check will emit the close event
    && (ReadyToClose(p) && !s.quietAtExit ==> s.outTask.Checking? || s.errTask.Checking?)
    && (s.quietAtExit ==> s.outTask.Ended? && s.errTask.Ended?)
    && (s.quietAtExit && !s.exitTask.Removed? ==> (p.closed <==> s.exitTask.Sleeping?))
  }

  predicate Inv(s: System) {
    && PhaseOf(s.events) != Broken
    && (s.exitTask.Waiting? ==> PhaseOf(s.events) == Live)
    && (s.entry.Some? ==> EntryInv(s, s.entry.value))
  }

  lemma InitInv(tty: bool)
    ensures Inv(Init(tty))
  {
  }

  lemma ReceiveInv(s: System, t: Task, bytes: seq<byte>)
    requires Inv(s) && s.entry.Some? && Enabled(s, Receive(t, bytes))
    ensures Inv(Next(s, Receive(t, bytes)))
  {
    var p := s.entry.value;
    var chunk := Chunk(p.nextSeq, StreamOf(s, t), bytes);
    AppendedLogs(p, History(s.events), chunk.stream, bytes);
    var events := s.events + [OutputEvent(chunk)];
    assert History(events) == History(s.events) + [chunk];
    assert PhaseOf(events) == PhaseOf(s.events);
  }

  lemma CheckInv(s: System, t: Task)
    requires Inv(s) && s.entry.Some? && Pc(s, t) == Checking
    ensures Inv(Next(s, CheckAfterStream(t)))
  {
  }

  lemma CheckAfterExitInv(s: System)
    requires Inv(s) && s.entry.Some? && s.exitTask.ExitChecking?
    ensures Inv(Next(s, CheckAfterExit))
  {
  }

  lemma GoneInv(s: System, a: Action)
    requires Inv(s) && Enabled(s, a) && s.entry.None?
    ensures Inv(Next(s, a))
  {
    assert Next(s, a).events == s.events && Next(s, a).entry.None?;
  }

  /** Actions that number nothing and leave the entry's fields alone. */
  lemma QuietInv(s: System, a: Action)
    requires Inv(s) && Enabled(s, a)
    requires a.StreamEnds? || a.NotifyOutput? || a.NotifyExit? || a.Remove? || a.Shutdown?
    ensures Inv(Next(s, a))
  {
  }

  lemma StepInv(s: System, a: Action)
    requires Inv(s) && Enabled(s, a)
    ensures Inv(Next(s, a))
  {
    if s.entry.None? {
      GoneInv(s, a);
    } else {
      match a
      case Receive(t, bytes) => ReceiveInv(s, t, bytes);
      case Exit(code) =>
      case Finish(t) =>
      case CheckAfterStream(t) => CheckInv(s, t);
      case CheckAfterExit => CheckAfterExitInv(s);
      case _ => QuietInv(s, a);
    }
  }

  /** Every reachable state satisfies the invariant. */
  lemma {:induction false} RunInv(trace: seq<System>, n: nat)
    requires Run(trace) && n < |trace|
    ensures Inv(trace[n])
  {
    if n == 0 {
      InitInv(trace[0].tty);
    } else {
      RunInv(trace, n - 1);
      assert Steps(trace[n - 1], trace[n - 1 + 1]);
      var a :| Enabled(trace[n - 1], a) && trace[n] == Next(trace[n - 1], a);
      StepInv(trace[n - 1], a);
    }
  }

  // ------------------------------------------------------------ theorems

  /** What the phase of an event list says about numbers, exit events and close events. */
  lemma {:induction false} PhaseMeans(events: seq<Event>)
    requires PhaseOf(events) != Broken
    ensures forall i :: 0 <= i < |events| ==> Number(events[i]) == i + 1
    ensures forall i :: 0 <= i < |events| - 1 ==> !events[i].CloseEvent?
    ensures forall i, j :: 0 <= i < j < |events| && events[i].ExitEvent? ==> !events[j].ExitEvent?
    ensures (exists i :: 0 <= i < |events| && events[i].ExitEvent?) <==> PhaseOf(events) != Live
    ensures events != [] && events[|events| - 1].CloseEvent? <==> PhaseOf(events) == AfterClose
  {
    if events != [] {
      var n := |events| - 1;
      var earlier := events[..n];
      PhaseMeans(earlier);
      assert forall i :: 0 <= i < n ==> events[i] == earlier[i];
      if PhaseOf(earlier) != Live {
        var i :| 0 <= i < |earlier| && earlier[i].ExitEvent?;
        assert events[i].ExitEvent?;
      } else if events[n].ExitEvent? {
        assert events[n].ExitEvent?;
      }
    }
  }

  /** Sequence numbers of the history strictly increase below the next number. */
  lemma {:induction false} HistoryOrdered(events: seq<Event>)
    requires PhaseOf(events) != Broken
    ensures Ordered(History(events), |events| + 1)
    ensures forall c :: c in History(events) <==> OutputEvent(c) in events
  {
    if events != [] {
      var n := |events| - 1;
      HistoryOrdered(events[..n]);
      assert events == events[..n] + [events[n]];
    }
  }

  /**
   * In every reachable state the retained queue is the longest suffix of the full
   * history that fits 1 MiB, its byte count is exact, and numbers increase.
   */
  lemma RetainedIsLongestSuffix(trace: seq<System>, n: nat)
    requires Run(trace) && n < |trace| && trace[n].entry.Some?
    ensures var p, h := trace[n].entry.value, History(trace[n].events);
            && p.retained == Size(p.output) <= 1_048_576
            && |p.output| <= |h|
            && p.output == h[|h| - |p.output|..]
            && (forall k :: 0 <= k < |h| - |p.output| ==> Size(h[k..]) > 1_048_576)
            && Ordered(h, p.nextSeq)
  {
    RunInv(trace, n);
    RetainIsLongestFit(History(trace[n].events));
    HistoryOrdered(trace[n].events);
  }

  /** At most one close event; it is the last event, above every output number and the exit number. */
  lemma CloseIsLast(trace: seq<System>, n: nat, i: nat)
    requires Run(trace) && n < |trace| && i < |trace[n].events| && trace[n].events[i].CloseEvent?
    ensures forall j :: 0 <= j < |trace[n].events| && j != i ==>
              !trace[n].events[j].CloseEvent? && Number(trace[n].events[j]) < Number(trace[n].events[i])
    ensures exists j :: 0 <= j < i && trace[n].events[j].ExitEvent?
  {
    RunInv(trace, n);
    PhaseMeans(trace[n].events);
    var j :| 0 <= j < |trace[n].events| && trace[n].events[j].ExitEvent?;
    assert j < i;
  }

  /** Events, and so the history, are only ever appended to. */
  lemma {:induction false} EventsGrow(trace: seq<System>, m: nat, n: nat)
    requires Run(trace) && m <= n < |trace|
    ensures trace[m].events <= trace[n].events
    decreases n
  {
    if m < n {
      EventsGrow(trace, m, n - 1);
      assert Steps(trace[n - 1], trace[n - 1 + 1]);
    }
  }

  /** Once closed, nothing is numbered any more: no output follows the close event. */
  lemma NothingAfterClose(trace: seq<System>, m: nat, n: nat)
    requires Run(trace) && m <= n < |trace|
    requires trace[m].events != [] && trace[m].events[|trace[m].events| - 1].CloseEvent?
    ensures trace[n].events == trace[m].events
  {
    EventsGrow(trace, m, n);
    RunInv(trace, n);
    PhaseMeans(trace[n].events);
    assert trace[n].events[|trace[m].events| - 1] == trace[m].events[|trace[m].events| - 1];
  }

  lemma HistoryAppend(events: seq<Event>, e: Event)
    ensures History(events + [e]) == if e.OutputEvent? then History(events) + [e.chunk] else History(events)
  {
    assert (events + [e])[..|events|] == events;
  }

  /** The chunk of task `t` that received `bytes`: `Pty` for a terminal, else labelled by the task. */
  predicate IsChunkOf(s: System, t: Task, bytes: seq<byte>, c: Chunk) {
    && s.entry.Some? && c.seqNo == s.entry.value.nextSeq && c.bytes == bytes
    && (c.stream == Pty <==> s.tty)
    && (!s.tty ==> c.stream == if t == Err then Stderr else Stdout)
  }

  /** What a stream task receives while the entry is there is added to the history, all its bytes. */
  lemma ReceivedIsAdded(s: System, t: Task, bytes: seq<byte>) returns (c: Chunk)
    requires Enabled(s, Receive(t, bytes)) && s.entry.Some?
    ensures IsChunkOf(s, t, bytes, c)
    ensures History(Next(s, Receive(t, bytes)).events) == History(s.events) + [c]
  {
    c := Chunk(s.entry.value.nextSeq, StreamOf(s, t), bytes);
    HistoryAppend(s.events, OutputEvent(c));
  }

  /** And nothing else is. */
  lemma OnlyReceivedIsAdded(s: System, a: Action)
    requires Enabled(s, a) && (a.Receive? ==> s.entry.None?)
    ensures History(Next(s, a).events) == History(s.events)
  {
    if s.entry.Some? {
      HistoryAppend(s.events, ExitEvent(s.entry.value.nextSeq));
      HistoryAppend(s.events, CloseEvent(s.entry.value.nextSeq));
    }
  }

  /** Once `Exit(code)` was recorded, the entry has that exit code for as long as it is there. */
  lemma {:induction false} ExitCodeIsKept(trace: seq<System>, m: nat, n: nat, code: int)
    requires Run(trace) && m < n < |trace| && trace[m].entry.Some?
    requires Enabled(trace[m], Exit(code)) && trace[m + 1] == Next(trace[m], Exit(code))
    ensures !trace[n].exitTask.Waiting?
    ensures trace[n].entry.Some? ==> trace[n].entry.value.exitCode == Some(code)
    decreases n
  {
    if m + 1 < n {
      ExitCodeIsKept(trace, m, n - 1, code);
      assert Steps(trace[n - 1], trace[n - 1 + 1]);
      var a :| Enabled(trace[n - 1], a) && trace[n] == Next(trace[n - 1], a);
      ExitCodeStep(trace[n - 1], a, code);
    }
  }

  lemma ExitCodeStep(s: System, a: Action, code: int)
    requires Enabled(s, a) && !s.exitTask.Waiting? && (s.entry.Some? ==> s.entry.value.exitCode == Some(code))
    ensures !Next(s, a).exitTask.Waiting?
    ensures Next(s, a).entry.Some? ==> Next(s, a).entry.value.exitCode == Some(code)
  {
  }

  ghost predicate HasClose(s: System) {
    exists i :: 0 <= i < |s.events| && s.events[i].CloseEvent?
  }

  /**
   * Both stream tasks have ended, `watch_exit` is past its check (or gave up), and
   * the entry is still there: the close event was emitted unless the exit
   * notification failed after both streams had already ended.
   */
  lemma ClosedAtRest(trace: seq<System>, n: nat)
    requires Run(trace) && n < |trace|
    requires trace[n].entry.Some? && trace[n].outTask.Ended? && trace[n].errTask.Ended?
    requires trace[n].exitTask.Sleeping? || trace[n].exitTask.Aborted?
    ensures HasClose(trace[n]) <==> trace[n].exitTask.Sleeping? || !trace[n].quietAtExit
  {
    RunInv(trace, n);
    PhaseMeans(trace[n].events);
    if PhaseOf(trace[n].events) == AfterClose {
      assert trace[n].events[|trace[n].events| - 1].CloseEvent?;
    }
  }

  lemma CloseIffPhase(s: System)
    requires PhaseOf(s.events) != Broken
    ensures HasClose(s) <==> PhaseOf(s.events) == AfterClose
  {
    PhaseMeans(s.events);
    if PhaseOf(s.events) == AfterClose {
      assert s.events[|s.events| - 1].CloseEvent?;
    }
  }

  lemma {:induction false} GoneForGood(trace: seq<System>, m: nat, n: nat)
    requires Run(trace) && m <= n < |trace| && trace[m].entry.None?
    ensures trace[n].entry.None? && trace[n].events == trace[m].events
    decreases n
  {
    if m < n {
      GoneForGood(trace, m, n - 1);
      assert Steps(trace[n - 1], trace[n - 1 + 1]);
    }
  }

  /**
   * Once the entry is gone, removed after the retention time or shut down, there is a close
   * event iff it had been emitted by then: never when a stream was still open, always when
   * both stream tasks had ended and `watch_exit` was past its check.
   */
  lemma ClosedAtRemoval(trace: seq<System>, m: nat, n: nat)
    requires Run(trace) && m < n < |trace| && trace[m].entry.Some? && trace[m + 1].entry.None?
    ensures HasClose(trace[n]) <==> trace[m].entry.value.closed
    ensures Open(trace[m].outTask) + Open(trace[m].errTask) > 0 ==> !HasClose(trace[n])
    ensures trace[m].exitTask.Sleeping? && trace[m].outTask.Ended? && trace[m].errTask.Ended? ==> HasClose(trace[n])
  {
    RunInv(trace, m);
    CloseIffPhase(trace[m]);
    assert Steps(trace[m], trace[m + 1]);
    assert trace[m + 1].events == trace[m].events;
    GoneForGood(trace, m + 1, n);
  }

  /** A close event is emitted by exactly the check that finds both streams done and the exit recorded. */
  lemma WhoCloses(trace: seq<System>, n: nat, a: Action)
    requires Run(trace) && n < |trace| && Enabled(trace[n], a)
    ensures var s := trace[n];
            (HasClose(Next(s, a)) && !HasClose(s)) <==>
              && (a.CheckAfterStream? || a.CheckAfterExit?)
              && s.entry.Some? && !s.entry.value.closed && s.entry.value.exitCode.Some?
              && Open(s.outTask) == Open(s.errTask) == 0
  {
    RunInv(trace, n);
    StepInv(trace[n], a);
    CloseIffPhase(trace[n]);
    CloseIffPhase(Next(trace[n], a));
    WhoseStepCloses(trace[n], a);
  }

  lemma WhoseStepCloses(s: System, a: Action)
    requires Inv(s) && Enabled(s, a) && Inv(Next(s, a))
    ensures PhaseOf(Next(s, a).events) == AfterClose && PhaseOf(s.events) != AfterClose <==>
              && (a.CheckAfterStream? || a.CheckAfterExit?)
              && s.entry.Some? && !s.entry.value.closed && s.entry.value.exitCode.Some?
              && Open(s.outTask) == Open(s.errTask) == 0
  {
    assert s.entry.None? ==> Next(s, a).events == s.events;
  }

  lemma Extend(trace: seq<System>, a: Action) returns (longer: seq<System>)
    requires Run(trace) && Enabled(trace[|trace| - 1], a)
    ensures Run(longer) && longer == trace + [Next(trace[|trace| - 1], a)]
  {
    longer := trace + [Next(trace[|trace| - 1], a)];
    assert Steps(longer[|trace| - 1], longer[|trace|]);
    forall i | 0 <= i < |longer| - 1 ensures Steps(longer[i], longer[i + 1]) {
      if i < |trace| - 1 {
        assert Steps(trace[i], trace[i + 1]);
      }
    }
  }

  lemma StreamRunsOut(trace: seq<System>, t: Task) returns (longer: seq<System>)
    requires Run(trace)
    requires var s := trace[|trace| - 1];
             Pc(s, t) == Receiving && s.entry.Some? && s.entry.value.exitCode.None? && s.events == []
    ensures Run(longer)
    ensures var s, s' := trace[|trace| - 1], longer[|longer| - 1];
            s' == Goto(s, t, Ended).(entry := Some(StreamFinished(s.entry.value)))
  {
    longer := Extend(trace, StreamEnds(t));
    longer := Extend(longer, Finish(t));
    longer := Extend(longer, CheckAfterStream(t));
  }

  /** An exit whose entry is removed while both streams are open: they end later and nobody emits the close event. */
  lemma RemovalLosesClose() returns (trace: seq<System>)
    ensures Run(trace)
    ensures var s := trace[|trace| - 1];
            s.exitTask.Removed? && s.outTask.Ended? && s.errTask.Ended? && !HasClose(s)
  {
    trace := Extend([Init(false)], Exit(0));
    trace := Extend(trace, NotifyExit(true));
    trace := Extend(trace, CheckAfterExit);
    trace := Extend(trace, Remove);
    assert trace[4].entry.None? && trace[4].events == [ExitEvent(1)];
    trace := Extend(trace, StreamEnds(Out));
    trace := Extend(trace, Finish(Out));
    trace := Extend(trace, StreamEnds(Err));
    trace := Extend(trace, Finish(Err));
  }

  /** The failing family is real: both streams end, the exit is recorded, its notification fails. */
  lemma CloseCanBeLost() returns (trace: seq<System>)
    ensures Run(trace)
    ensures var s := trace[|trace| - 1];
            && s.entry.Some? && s.outTask.Ended? && s.errTask.Ended? && s.exitTask.Aborted?
            && !HasClose(s)
  {
    trace := StreamRunsOut([Init(false)], Out);
    trace := StreamRunsOut(trace, Err);
    trace := Extend(trace, Exit(0));
    trace := Extend(trace, NotifyExit(false));
  }
}
