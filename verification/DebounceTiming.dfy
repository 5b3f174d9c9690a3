/**
 * When the debouncer dispatches: the three timing states of a session, stated over the
 * whole history of collected messages.
 */
module DebounceTiming {
  import opened Basics
  import opened Debounce

  /** A mention less than the active window before `now`. */
  ghost predicate Active(c: Config, earlier: seq<Arrival>, now: int) {
    exists i :: 0 <= i < |earlier| && earlier[i].message.isMentioned && now - earlier[i].at < c.activeWindowMs
  }

  /** How long the session stays quiet after its latest message. */
  ghost function QuietTime(c: Config, collected: seq<Arrival>): int
    requires collected != []
  {
    var n := |collected| - 1;
    if collected[n].message.isMentioned then c.debounceMs
    else if Active(c, collected[..n], collected[n].at) then c.delayMs
    else 100
  }

  /** The time of the latest mention. */
  function LatestMention(collected: seq<Arrival>): Option<int> {
    if collected == [] then None
    else
      var last := collected[|collected| - 1];
      if last.message.isMentioned then Some(last.at) else LatestMention(collected[..|collected| - 1])
  }

  ghost predicate Chronological(collected: seq<Arrival>, now: int) {
    && (forall i :: 0 <= i < |collected| ==> collected[i].at <= now)
    && (forall i, j :: 0 <= i < j < |collected| ==> collected[i].at <= collected[j].at)
  }

  /** On a clock that does not run back, the latest mention decides whether the session is active. */
  lemma {:induction false} LatestDecides(c: Config, collected: seq<Arrival>, now: int)
    requires Chronological(collected, now)
    ensures Active(c, collected, now) <==>
              LatestMention(collected).Some? && now - LatestMention(collected).value < c.activeWindowMs
    ensures LatestMention(collected).Some? ==>
              exists i ::
                && 0 <= i < |collected| && collected[i].message.isMentioned
                && collected[i].at == LatestMention(collected).value
  {
    if collected != [] {
      var n := |collected| - 1;
      var earlier := collected[..n];
      if collected[n].message.isMentioned {
        assert Active(c, collected, now) ==> now - collected[n].at < c.activeWindowMs;
      } else {
        LatestDecides(c, earlier, now);
        if Active(c, earlier, now) {
          var i :| 0 <= i < |earlier| && earlier[i].message.isMentioned && now - earlier[i].at < c.activeWindowMs;
          assert collected[i].message.isMentioned;
        }
        if LatestMention(earlier).Some? {
          var i :|
            && 0 <= i < |earlier| && earlier[i].message.isMentioned
            && earlier[i].at == LatestMention(earlier).value;
          assert collected[i].message.isMentioned;
        }
        if Active(c, collected, now) {
          var i :| 0 <= i < |collected| && collected[i].message.isMentioned && now - collected[i].at < c.activeWindowMs;
          assert earlier[i].message.isMentioned;
        }
      }
    }
  }

  // ------------------------------------------------------------- every run

  ghost predicate TimeInv(s: Session) {
    && Chronological(s.collected, s.now)
    && s.lastMentionedAt == LatestMention(s.collected)
    && (s.deadline.Some? ==>
          s.collected != [] && s.deadline.value == s.collected[|s.collected| - 1].at + QuietTime(s.config, s.collected))
    && (s.pc.Racing? && s.pc.fired ==> s.deadline.Some? && s.now >= s.deadline.value)
  }

  lemma CollectTime(s: Session, m: Message)
    requires TimeInv(s)
    ensures TimeInv(Collect(s, m))
  {
    var s' := Collect(s, m);
    LatestDecides(s.config, s.collected, s.now);
    assert s'.collected[..|s.collected|] == s.collected;
  }

  lemma StepTime(s: Session, a: Action)
    requires TimeInv(s) && Enabled(s, a)
    ensures TimeInv(Next(s, a)) && Next(s, a).config == s.config
  {
    match a
    case ResumeTake =>
      if s.pc.message.Some? {
        CollectTime(s, s.pc.message.value);
      }
    case RaceReady =>
      if s.items != [] {
        CollectTime(s, s.items[0]);
      }
    case _ =>
  }

  lemma {:induction false} RunTime(trace: seq<Session>, n: nat)
    requires Run(trace) && n < |trace|
    ensures TimeInv(trace[n])
  {
    if n > 0 {
      RunTime(trace, n - 1);
      assert Steps(trace[n - 1], trace[n - 1 + 1]);
      var a :| Enabled(trace[n - 1], a) && trace[n] == Next(trace[n - 1], a);
      StepTime(trace[n - 1], a);
    }
  }

  /**
   * While messages are pending, the deadline is the time of the latest one plus the delay of
   * its timing state: mentioned, active within the window of any earlier mention, or neither.
   */
  lemma DeadlineFollowsHistory(trace: seq<Session>, n: nat)
    requires Run(trace) && n < |trace| && trace[n].deadline.Some?
    ensures var s := trace[n];
            && s.collected != []
            && s.deadline.value == s.collected[|s.collected| - 1].at + QuietTime(s.config, s.collected)
  {
    RunTime(trace, n);
  }

  /** A batch goes out by time-out only after the quiet time that its latest message asks for. */
  lemma QuietBeforeTimeout(trace: seq<Session>, n: nat)
    requires Run(trace) && n < |trace| && Enabled(trace[n], RaceTimeout)
    ensures var s := trace[n];
            s.collected != [] && s.now >= s.collected[|s.collected| - 1].at + QuietTime(s.config, s.collected)
  {
    RunTime(trace, n);
  }

  function Messages(collected: seq<Arrival>): seq<Message> {
    if collected == [] then [] else Messages(collected[..|collected| - 1]) + [collected[|collected| - 1].message]
  }

  /** The collected messages are the dispatched batches followed by what is pending. */
  ghost predicate Timed(s: Session) {
    Messages(s.collected) == Flatten(s.dispatched) + s.pending
  }

  lemma CollectTimed(s: Session, m: Message)
    requires Timed(s)
    ensures Timed(Collect(s, m))
  {
    assert (s.collected + [Arrival(m, s.now)])[..|s.collected|] == s.collected;
    assert Flatten(s.dispatched) + (s.pending + [m]) == Flatten(s.dispatched) + s.pending + [m];
  }

  /** A step that neither collects nor dispatches. */
  lemma IdleTimed(s: Session, a: Action)
    requires Enabled(s, a) && !a.ResumeTake? && !a.RaceReady? && !a.RaceTimeout?
    ensures var s' := Next(s, a);
            s'.collected == s.collected && s'.dispatched == s.dispatched && s'.pending == s.pending
  {
  }

  lemma DispatchTimed(s: Session, s': Session)
    requires Timed(s) && s'.collected == s.collected
    requires s'.dispatched == s.dispatched + [s.pending] && s'.pending == []
    ensures Timed(s')
  {
    FlattenStep(s.dispatched, s.pending);
    assert Flatten(s'.dispatched) + [] == Flatten(s'.dispatched);
  }

  lemma StepTimed(s: Session, a: Action)
    requires Enabled(s, a) && Timed(s)
    ensures Timed(Next(s, a))
  {
    match a
    case ResumeTake =>
      if s.pc.message.Some? {
        CollectTimed(s, s.pc.message.value);
      }
    case RaceReady =>
      if s.items != [] {
        CollectTimed(s, s.items[0]);
      } else if s.closed && s.pending != [] {
        DispatchTimed(s, Next(s, a));
      }
    case RaceTimeout => DispatchTimed(s, Next(s, a));
    case _ => IdleTimed(s, a);
  }

  /** The timed history is the dispatched batches followed by what is pending. */
  lemma {:induction false} CollectedAreDispatched(trace: seq<Session>, n: nat)
    requires Run(trace) && n < |trace|
    ensures Timed(trace[n])
  {
    if n > 0 {
      CollectedAreDispatched(trace, n - 1);
      assert Steps(trace[n - 1], trace[n - 1 + 1]);
      var a :| Enabled(trace[n - 1], a) && trace[n] == Next(trace[n - 1], a);
      StepTimed(trace[n - 1], a);
    }
  }
}
