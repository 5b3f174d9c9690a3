/**
 * Output that a process writes after the read that reported its exit: `runCommand` returns
 * at that read, so its report is the final output exactly when nothing can follow.
 */
module LateOutput {
  import opened Basics
  import opened ProcessLog
  import opened ProcessTasks
  import opened CommandPoller

  /** No stream task will append again, or there is no entry left to append to. */
  predicate Settled(s: System) {
    s.entry.None? || (PastReading(s.outTask) && PastReading(s.errTask))
  }

  predicate PastReading(pc: StreamPc) {
    !pc.Receiving? && !pc.Notifying?
  }

  /** The one event, and no output, that a step of a settled process can add. */
  lemma SettledEvents(s: System, a: Action) returns (added: seq<Event>)
    requires Enabled(s, a) && Settled(s)
    ensures Next(s, a).events == s.events + added && |added| <= 1
    ensures added != [] ==> !added[0].OutputEvent?
  {
    added := Next(s, a).events[|s.events|..];
  }

  lemma SettledStep(s: System, a: Action)
    requires Enabled(s, a) && Settled(s)
    ensures Settled(Next(s, a)) && History(Next(s, a).events) == History(s.events)
  {
    var added := SettledEvents(s, a);
    NoOutputAdded(s.events, added);
  }

  lemma NoOutputAdded(events: seq<Event>, added: seq<Event>)
    requires |added| <= 1 && (added != [] ==> !added[0].OutputEvent?)
    ensures History(events + added) == History(events)
  {
    if added == [] {
      assert events + added == events;
    } else {
      assert events + added == events + [added[0]];
    }
  }

  /** A settled history never grows. */
  lemma {:induction false} SettledStays(trace: seq<System>, m: nat, n: nat)
    requires Run(trace) && m <= n < |trace| && Settled(trace[m])
    ensures Settled(trace[n]) && History(trace[n].events) == History(trace[m].events)
    decreases n
  {
    if m < n {
      SettledStays(trace, m, n - 1);
      assert Steps(trace[n - 1], trace[n - 1 + 1]);
      var a :| Enabled(trace[n - 1], a) && trace[n] == Next(trace[n - 1], a);
      SettledStep(trace[n - 1], a);
    }
  }

  /** `longer` is a run that goes on from state `k` of `trace`. */
  ghost predicate Continues(longer: seq<System>, trace: seq<System>, k: nat) {
    Run(longer) && k < |trace| && trace[..k + 1] <= longer
  }

  lemma Cut(trace: seq<System>, k: nat)
    requires Run(trace) && k < |trace|
    ensures Continues(trace[..k + 1], trace, k)
  {
    var prefix := trace[..k + 1];
    forall i | 0 <= i < |prefix| - 1 ensures Steps(prefix[i], prefix[i + 1]) {
      assert Steps(trace[i], trace[i + 1]);
    }
  }

  /** Task `t` reads one more byte. */
  lemma ReadsOneMore(trace: seq<System>, k: nat, t: Task) returns (longer: seq<System>, chunk: Chunk)
    requires Run(trace) && k < |trace| && trace[k].entry.Some? && !PastReading(Pc(trace[k], t))
    ensures Continues(longer, trace, k) && |chunk.bytes| == 1
    ensures History(longer[|longer| - 1].events) == History(trace[k].events) + [chunk]
  {
    Cut(trace, k);
    longer := trace[..k + 1];
    if Pc(trace[k], t) == Notifying {
      longer := ProcessTasks.Extend(longer, NotifyOutput(t, true));
    }
    var s := longer[|longer| - 1];
    chunk := Chunk(s.entry.value.nextSeq, StreamOf(s, t), [0]);
    longer := ProcessTasks.Extend(longer, Receive(t, [0]));
  }

  /** What the client makes of the replies is, chunk by chunk, what the process has written in state `s`. */
  ghost predicate Complete(replies: seq<ReadResponse>, s: System) {
    Outputs(StreamBytes(Received(replies), false), StreamBytes(Received(replies), true), History(s.events))
  }

  lemma CompleteAtRead(trace: seq<System>, at: seq<nat>, replies: seq<ReadResponse>, n: nat)
    requires Served(trace, at, replies) && n < |replies|
    requires Size(History(trace[at[n]].events)) <= RETAINED_OUTPUT_BYTES
    ensures Complete(replies[..n + 1], trace[at[n]])
  {
    ExactAt(trace, at, replies, n, false);
    ExactAt(trace, at, replies, n, true);
    BytesAreOutputs(History(trace[at[n]].events));
  }

  lemma OneByteShows(h: seq<Chunk>, chunk: Chunk)
    requires |chunk.bytes| == 1
    ensures StreamBytes(h + [chunk], chunk.stream.Stderr?) != StreamBytes(h, chunk.stream.Stderr?)
  {
    StreamBytesAppend(h, [chunk], chunk.stream.Stderr?);
  }

  /**
   * The exact condition, given that the output so far fits 1 MiB: what the client has after
   * reply `n` is the whole output in every continuation iff no stream task could still read
   * when the reply was served.
   */
  lemma ReportIsFinalIff(trace: seq<System>, at: seq<nat>, replies: seq<ReadResponse>, n: nat)
    requires Served(trace, at, replies) && n < |replies|
    requires Size(History(trace[at[n]].events)) <= 1_048_576
    ensures Settled(trace[at[n]]) <==>
              forall longer, m :: Continues(longer, trace, at[n]) && at[n] <= m < |longer| ==>
                Complete(replies[..n + 1], longer[m])
  {
    var k := at[n];
    CompleteAtRead(trace, at, replies, n);
    if Settled(trace[k]) {
      forall longer, m | Continues(longer, trace, k) && k <= m < |longer|
        ensures Complete(replies[..n + 1], longer[m])
      {
        assert longer[k] == trace[..k + 1][k];
        SettledStays(longer, k, m);
      }
    } else {
      var t := if PastReading(trace[k].outTask) then Err else Out;
      var longer, chunk := ReadsOneMore(trace, k, t);
      OneByteShows(History(trace[k].events), chunk);
      var got := Received(replies[..n + 1]);
      OutputsAreUnique(StreamBytes(got, false), StreamBytes(got, true), History(trace[k].events));
      if Complete(replies[..n + 1], longer[|longer| - 1]) {
        OutputsAreUnique(StreamBytes(got, false), StreamBytes(got, true), History(trace[k].events) + [chunk]);
      }
      assert !Complete(replies[..n + 1], longer[|longer| - 1]);
    }
  }

  /** What a client can rely on: a reply that says `closed` completes the output for good. */
  lemma ClosedReplyIsComplete(trace: seq<System>, at: seq<nat>, replies: seq<ReadResponse>, n: nat, m: nat)
    requires Served(trace, at, replies) && n < |replies| && replies[n].closed && at[n] <= m < |trace|
    requires Size(History(trace[at[n]].events)) <= 1_048_576
    ensures Settled(trace[at[n]]) && Complete(replies[..n + 1], trace[m])
  {
    RunInv(trace, at[n]);
    CompleteAtRead(trace, at, replies, n);
    SettledStays(trace, at[n], m);
  }

  /** The process exits, and then stdout delivers one more byte. */
  lemma ExitThenByte() returns (trace: seq<System>)
    ensures Run(trace) && |trace| == 3 && History(trace[1].events) == []
    ensures trace[1].entry.Some? && trace[1].entry.value.output == [] && trace[1].entry.value.exitCode == Some(0)
    ensures History(trace[2].events) == [Chunk(2, Stdout, [7])]
  {
    trace := ProcessTasks.Extend([Init(false)], Exit(0));
    trace := ProcessTasks.Extend(trace, Receive(Out, [7]));
  }

  /** A run that loses output: the client reads between the exit and that byte. */
  lemma OutputCanBeLate() returns (trace: seq<System>, at: seq<nat>, replies: seq<ReadResponse>)
    ensures Served(trace, at, replies) && |replies| == 1 && replies[0].exitCode == Some(0)
    ensures StreamBytes(Received(replies), false) == []
    ensures StreamBytes(History(trace[|trace| - 1].events), false) == [7]
  {
    trace := ExitThenByte();
    var p := trace[1].entry.value;
    at, replies := [1], [ReadResponse([], p.nextSeq, p.exitCode, p.closed)];
    assert replies[..0] == [];
    assert Received(replies) == Received(replies[..0]) + [];
  }
}
