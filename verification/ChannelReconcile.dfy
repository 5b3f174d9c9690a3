/**
 * `ChannelManager` over time: notifications, config changes and `stopAll` interleave with
 * the steps of the running reconcile pass.
 */
module ChannelReconcile {
  import opened ChannelManager

  /** A pass: how many notifications had come when it started, and what it loaded. */
  datatype Pass = Pass(since: nat, all: Configs, loaded: bool)

  datatype Position =
    | Idle
    | Loading(since: nat, stored: seq<Configs>)
    | Applying(pass: Pass, i: nat)
    | Stopping(pass: Pass, i: nat)

  datatype Outcome = Never | Completed(pass: Pass) | Threw(pass: Pass)

  /**
   * `at` is where the running pass stands (`Idle` when `reconciling` is false); a loading
   * pass lists what was stored since its load began, any of which it may get. `notified`
   * counts the notifications taken, `last` is how the latest pass ended, `db` is the stored
   * config, `unannounced` says that it changed after the latest notification, and `cleared`
   * that `stopAll` has emptied the maps. `running` holds the channels that were started and
   * not told to stop since, with the bucket each was built from.
   */
  datatype State = State(
    at: Position,
    rerun: bool,
    stopped: bool,
    cleared: bool,
    maps: Maps,
    running: map<string, string>,
    notified: nat,
    last: Outcome,
    db: Configs,
    unannounced: bool)

  datatype Action =
    | Notify
    | ConfigChange(db: Configs)
    | LoadDone(all: Configs)
    | LoadFail
    | ApplyOne
    | StopDone
    | EndPass
    | StopAll
    | StopAllDone

  function Init(db: Configs): State {
    State(Idle, false, false, false, Maps(map[], map[]), map[], 0, Never, db, true)
  }

  predicate Enabled(env: Env, s: State, a: Action) {
    match a
    case Notify => !s.stopped
    case ConfigChange(_) => true
    case LoadDone(all) => s.at.Loading? && all in s.at.stored
    case LoadFail => s.at.Loading?
    case ApplyOne => s.at.Applying? && s.at.i < |env.known| && !s.stopped
    case StopDone => s.at.Stopping? && s.at.i < |env.known|
    case EndPass => s.at.Applying? && (s.at.i >= |env.known| || s.stopped)
    case StopAll => !s.stopped
    case StopAllDone => s.stopped && !s.cleared
  }

  function Next(env: Env, s: State, a: Action): State
    requires Enabled(env, s, a)
  {
    match a
    case Notify =>
      var s' := s.(notified := s.notified + 1, unannounced := false);
      if s.at.Idle? then s'.(at := Loading(s.notified + 1, [s.db]), rerun := false) else s'.(rerun := true)
    case ConfigChange(db) =>
      s.(db := db, unannounced := true, at := if s.at.Loading? then s.at.(stored := s.at.stored + [db]) else s.at)
    case LoadDone(all) => s.(at := Applying(Pass(s.at.since, all, true), 0))
    case LoadFail => s.(at := Applying(Pass(s.at.since, map[], false), 0))
    case ApplyOne => Apply(env, s)
    case StopDone => Replaced(env, s)
    case EndPass =>
      var s' := s.(last := Completed(s.at.pass));
      if s.rerun && !s.stopped then s'.(at := Loading(s.notified, [s.db]), rerun := false) else s'.(at := Idle)
    case StopAll => s.(stopped := true, running := s.running - s.maps.channels.Keys)
    case StopAllDone => s.(cleared := true, maps := Maps(map[], map[]))
  }

  /** One turn of the loop, up to the wait for a running channel to stop; a throw ends the pass. */
  function Apply(env: Env, s: State): State
    requires Enabled(env, s, ApplyOne)
  {
    var name := env.known[s.at.i];
    if Want(env, s.at.pass.all, name).Throws? then s.(at := Idle, last := Threw(s.at.pass))
    else if name in s.maps.applied && s.maps.applied[name] == WantHash(env, s.at.pass.all, name)
    then s.(at := Applying(s.at.pass, s.at.i + 1))
    else if name in s.maps.channels then s.(at := Stopping(s.at.pass, s.at.i), running := s.running - {name})
    else Replaced(env, s)
  }

  /** The new channel, if any, is in place, started and recorded. */
  function Replaced(env: Env, s: State): State
    requires (s.at.Applying? || s.at.Stopping?) && s.at.i < |env.known|
  {
    var name := env.known[s.at.i];
    var hash := WantHash(env, s.at.pass.all, name);
    s.(at := Applying(s.at.pass, s.at.i + 1), maps := Swap(s.maps, name, hash),
       running := if hash.On? then s.running[name := hash.text] else s.running)
  }

  ghost predicate Steps(env: Env, s: State, s': State) {
    exists a :: Enabled(env, s, a) && s' == Next(env, s, a)
  }

  ghost predicate Run(env: Env, trace: seq<State>) {
    && ValidEnv(env)
    && trace != [] && trace[0] == Init(trace[0].db)
    && forall i, j :: 0 <= i && j == i + 1 < |trace| ==> Steps(env, trace[i], trace[j])
  }

  // ------------------------------------------------------------ invariant

  /** A pass that began at the latest notification, loaded, and saw every change has the stored config. */
  predicate Fresh(s: State, pass: Pass) {
    && pass.since <= s.notified
    && (pass.since == s.notified && pass.loaded && !s.unannounced ==> pass.all == s.db)
  }

  /** A notification that no pass began after is remembered in `rerun`. */
  predicate WakeInv(s: State) {
    match s.at
    case Idle => s.notified > 0 ==>
      !s.last.Never? && (s.last.pass.since < s.notified <==> s.rerun) && (s.rerun && !s.stopped ==> s.last.Threw?)
    case Loading(since, _) => since <= s.notified && (since < s.notified <==> s.rerun)
    case Applying(pass, _) => pass.since < s.notified <==> s.rerun
    case Stopping(pass, _) => pass.since < s.notified <==> s.rerun
  }

  predicate FreshInv(s: State) {
    && (s.at.Loading? && s.at.since == s.notified && !s.unannounced ==> forall c :: c in s.at.stored ==> c == s.db)
    && (s.at.Applying? || s.at.Stopping? ==> Fresh(s, s.at.pass))
    && (s.last.Completed? || s.last.Threw? ==> Fresh(s, s.last.pass))
  }

  ghost predicate MapsInv(env: Env, s: State) {
    && Agree(env, s.maps)
    && (s.at.Applying? || s.at.Stopping? ==>
          s.at.i <= |env.known| && (!s.stopped ==> Reached(env, s.maps, s.at.pass.all, s.at.i)))
    && (s.at.Stopping? ==> s.at.i < |env.known| && !Want(env, s.at.pass.all, env.known[s.at.i]).Throws?)
    && (s.at.Idle? && s.last.Completed? && !s.stopped ==> Reached(env, s.maps, s.last.pass.all, |env.known|))
  }

  /** The channel the pass has told to stop and waits for. */
  function BeingStopped(env: Env, s: State): set<string> {
    if s.at.Stopping? && s.at.i < |env.known| then {env.known[s.at.i]} else {}
  }

  /** Until `stopAll` is called, what runs is what the map holds, but for the channel being stopped. */
  predicate RunningInv(env: Env, s: State) {
    !s.stopped ==> s.running == s.maps.channels - BeingStopped(env, s)
  }

  lemma TurnRunning(env: Env, s: State)
    requires RunningInv(env, s) && (s.at.Applying? || s.at.Stopping?) && s.at.i < |env.known|
    requires s.at.Stopping? || env.known[s.at.i] !in s.maps.channels
    ensures RunningInv(env, Replaced(env, s))
  {
  }

  lemma RunningStep(env: Env, s: State, a: Action)
    requires RunningInv(env, s) && Enabled(env, s, a)
    ensures RunningInv(env, Next(env, s, a))
  {
    if a.StopDone? || (a.ApplyOne? && env.known[s.at.i] !in s.maps.channels) {
      TurnRunning(env, s);
    }
  }

  lemma InitInv(env: Env, db: Configs)
    ensures WakeInv(Init(db)) && FreshInv(Init(db)) && MapsInv(env, Init(db)) && RunningInv(env, Init(db))
  {
  }

  lemma WakeStep(env: Env, s: State, a: Action)
    requires WakeInv(s) && FreshInv(s) && Enabled(env, s, a)
    ensures WakeInv(Next(env, s, a))
  {
  }

  lemma TurnFresh(env: Env, s: State, a: Action)
    requires FreshInv(s) && Enabled(env, s, a) && (a.ApplyOne? || a.StopDone?)
    ensures FreshInv(Next(env, s, a))
  {
    var s' := Next(env, s, a);
    assert s'.notified == s.notified && s'.db == s.db && s'.unannounced == s.unannounced;
    assert if s'.at.Idle? then s'.last == Threw(s.at.pass)
           else (s'.at.Applying? || s'.at.Stopping?) && s'.at.pass == s.at.pass && s'.last == s.last;
  }

  lemma FreshStep(env: Env, s: State, a: Action)
    requires WakeInv(s) && FreshInv(s) && Enabled(env, s, a)
    ensures FreshInv(Next(env, s, a))
  {
    if a.ApplyOne? || a.StopDone? {
      TurnFresh(env, s, a);
    }
  }

  lemma ReplacedInv(env: Env, s: State)
    requires ValidEnv(env) && MapsInv(env, s) && (s.at.Applying? || s.at.Stopping?)
    requires s.at.i < |env.known| && !Want(env, s.at.pass.all, env.known[s.at.i]).Throws?
    ensures MapsInv(env, Replaced(env, s))
  {
    SwapAgrees(env, s.maps, env.known[s.at.i], WantHash(env, s.at.pass.all, env.known[s.at.i]));
    if !s.stopped {
      SwapReaches(env, s.maps, s.at.pass.all, s.at.i);
    }
  }

  lemma ApplyInv(env: Env, s: State)
    requires ValidEnv(env) && MapsInv(env, s) && Enabled(env, s, ApplyOne)
    ensures MapsInv(env, Apply(env, s))
  {
    if !Want(env, s.at.pass.all, env.known[s.at.i]).Throws? {
      ReplacedInv(env, s);
      var name := env.known[s.at.i];
      assert name in s.maps.applied && s.maps.applied[name] == WantHash(env, s.at.pass.all, name) ==>
          Done(env, s.maps, s.at.pass.all, name);
    }
  }

  lemma MapsStep(env: Env, s: State, a: Action)
    requires ValidEnv(env) && MapsInv(env, s) && Enabled(env, s, a)
    ensures MapsInv(env, Next(env, s, a))
  {
    if a.ApplyOne? {
      ApplyInv(env, s);
    } else if a.StopDone? {
      ReplacedInv(env, s);
    }
  }

  lemma StepTaken(env: Env, trace: seq<State>, n: nat) returns (a: Action)
    requires Run(env, trace) && n + 1 < |trace|
    ensures Enabled(env, trace[n], a) && trace[n + 1] == Next(env, trace[n], a)
  {
    assert Steps(env, trace[n], trace[n + 1]);
    a :| Enabled(env, trace[n], a) && trace[n + 1] == Next(env, trace[n], a);
  }

  lemma InvKept(env: Env, trace: seq<State>, n: nat)
    requires Run(env, trace) && n + 1 < |trace|
    requires WakeInv(trace[n]) && FreshInv(trace[n]) && MapsInv(env, trace[n]) && RunningInv(env, trace[n])
    ensures WakeInv(trace[n + 1]) && FreshInv(trace[n + 1])
    ensures MapsInv(env, trace[n + 1]) && RunningInv(env, trace[n + 1])
  {
    var a := StepTaken(env, trace, n);
    WakeStep(env, trace[n], a);
    FreshStep(env, trace[n], a);
    MapsStep(env, trace[n], a);
    RunningStep(env, trace[n], a);
  }

  lemma {:induction false} RunInv(env: Env, trace: seq<State>, n: nat)
    requires Run(env, trace) && n < |trace|
    ensures WakeInv(trace[n]) && FreshInv(trace[n]) && MapsInv(env, trace[n]) && RunningInv(env, trace[n])
  {
    if n == 0 {
      InitInv(env, trace[0].db);
    } else {
      RunInv(env, trace, n - 1);
      InvKept(env, trace, n - 1);
    }
  }

  // ------------------------------------------------------------- theorems

  /**
   * No lost wake-up: when nothing runs and the manager is not stopped, the latest pass began
   * at or after the latest notification exactly when no rerun is left over, and one is left
   * over only if that pass threw. A pass that completed brought the maps to its load.
   */
  lemma AtRestReconciled(env: Env, trace: seq<State>, n: nat)
    requires Run(env, trace) && n < |trace| && trace[n].at.Idle? && !trace[n].stopped && trace[n].notified > 0
    ensures var s := trace[n];
            && !s.last.Never?
            && (s.last.pass.since == s.notified <==> !s.rerun)
            && (s.rerun ==> s.last.Threw?)
            && (s.last.Completed? ==>
                  && s.last.pass.since == s.notified
                  && s.running == s.maps.channels == Running(env, s.last.pass.all)
                  && s.maps.applied == Applied(env, s.last.pass.all))
  {
    RunInv(env, trace, n);
    if trace[n].last.Completed? {
      ReachedAll(env, trace[n].maps, trace[n].last.pass.all);
    }
  }

  /**
   * Convergence: if the stored config has not changed since the latest notification and the
   * latest pass loaded it and completed, the running channels are those of the stored config.
   */
  lemma AtRestMatchesStore(env: Env, trace: seq<State>, n: nat)
    requires Run(env, trace) && n < |trace| && trace[n].at.Idle? && !trace[n].stopped && !trace[n].unannounced
    requires trace[n].last.Completed? && trace[n].last.pass.loaded && trace[n].notified > 0
    ensures trace[n].running == trace[n].maps.channels == Running(env, trace[n].db)
  {
    RunInv(env, trace, n);
    AtRestReconciled(env, trace, n);
  }

  /**
   * In every reachable state the recorded hashes are those of the channels in the map, and
   * until `stopAll` is called these are the running ones, but for the one being stopped.
   */
  lemma AppliedAgrees(env: Env, trace: seq<State>, n: nat, name: string)
    requires Run(env, trace) && n < |trace|
    ensures name in trace[n].maps.channels <==> name in trace[n].maps.applied && trace[n].maps.applied[name].On?
    ensures name in trace[n].maps.channels ==>
              name in env.known && trace[n].maps.applied[name] == On(trace[n].maps.channels[name])
    ensures !trace[n].stopped ==>
              (name in trace[n].running <==> name in trace[n].maps.channels && name !in BeingStopped(env, trace[n]))
    ensures !trace[n].stopped && name in trace[n].running ==>
              name in trace[n].maps.channels && trace[n].running[name] == trace[n].maps.channels[name]
  {
    RunInv(env, trace, n);
  }

  // --------------------------------------------------------- after stopAll

  /** The channel that a pass waiting for the old one to stop is about to start, if any. */
  function Incoming(env: Env, s: State): map<string, string> {
    if s.at.Stopping? && s.at.i < |env.known| && WantHash(env, s.at.pass.all, env.known[s.at.i]).On?
    then map[env.known[s.at.i] := WantHash(env, s.at.pass.all, env.known[s.at.i]).text]
    else map[]
  }

  /** After a call of `stopAll`: what is started from then on is `left`, by the pass that was stopping a channel. */
  predicate StoppedInv(env: Env, left: map<string, string>, s: State) {
    && s.stopped
    && (if s.at.Stopping? then s.running == map[] && Incoming(env, s) == left else s.running == left)
    && (s.cleared ==> s.maps.channels.Keys <= s.running.Keys)
  }

  lemma StoppedStep(env: Env, left: map<string, string>, s: State, a: Action)
    requires StoppedInv(env, left, s) && Enabled(env, s, a)
    ensures StoppedInv(env, left, Next(env, s, a))
  {
  }

  lemma StoppedKept(env: Env, left: map<string, string>, trace: seq<State>, i: nat, j: nat)
    requires Run(env, trace) && j == i + 1 < |trace| && StoppedInv(env, left, trace[i])
    ensures StoppedInv(env, left, trace[j])
  {
    var a := StepTaken(env, trace, i);
    StoppedStep(env, left, trace[i], a);
  }

  lemma StepsStayStopped(env: Env, left: map<string, string>, trace: seq<State>)
    requires Run(env, trace)
    ensures forall i, j :: 0 <= i && j == i + 1 < |trace| && StoppedInv(env, left, trace[i]) ==>
              StoppedInv(env, left, trace[j])
  {
    forall i, j | 0 <= i && j == i + 1 < |trace| && StoppedInv(env, left, trace[i])
      ensures StoppedInv(env, left, trace[j])
    {
      StoppedKept(env, left, trace, i, j);
    }
  }

  lemma {:induction false} StoppedChain(env: Env, left: map<string, string>, trace: seq<State>, start: nat, n: nat)
    requires start <= n < |trace| && StoppedInv(env, left, trace[start])
    requires forall i, j :: 0 <= i && j == i + 1 < |trace| && StoppedInv(env, left, trace[i]) ==>
               StoppedInv(env, left, trace[j])
    ensures StoppedInv(env, left, trace[n])
    decreases n
  {
    if n > start {
      StoppedChain(env, left, trace, start, n - 1);
      assert StoppedInv(env, left, trace[n - 1]);
    }
  }

  /** The call tells every running channel to stop. */
  lemma CallStops(env: Env, s: State)
    requires RunningInv(env, s) && Enabled(env, s, StopAll) && !s.cleared
    ensures StoppedInv(env, Incoming(env, s), Next(env, s, StopAll))
  {
    assert s.running - s.maps.channels.Keys == map[];
  }

  /**
   * What runs once the pass has ended after a call of `stopAll` is exactly what the pass was
   * about to start at the call, whether it does so before or after the maps are emptied:
   * nothing unless it was waiting for a channel to stop whose successor `build` yields.
   */
  lemma AfterStopAll(env: Env, trace: seq<State>, m: nat, n: nat)
    requires Run(env, trace) && m < n < |trace| && trace[n].at.Idle?
    requires Enabled(env, trace[m], StopAll) && trace[m + 1] == Next(env, trace[m], StopAll)
    ensures trace[n].running == Incoming(env, trace[m])
    ensures trace[n].running != map[] <==>
              && trace[m].at.Stopping? && trace[m].at.i < |env.known|
              && Want(env, trace[m].at.pass.all, env.known[trace[m].at.i]).Channel?
  {
    RunInv(env, trace, m);
    NotCleared(env, trace, m);
    CallStops(env, trace[m]);
    StepsStayStopped(env, Incoming(env, trace[m]), trace);
    StoppedChain(env, Incoming(env, trace[m]), trace, m + 1, n);
    if trace[m].at.Stopping? && trace[m].at.i < |env.known| && Incoming(env, trace[m]) != map[] {
      assert env.known[trace[m].at.i] in Incoming(env, trace[m]);
    }
  }

  lemma {:induction false} NotCleared(env: Env, trace: seq<State>, n: nat)
    requires Run(env, trace) && n < |trace|
    ensures trace[n].cleared ==> trace[n].stopped
  {
    if n > 0 {
      NotCleared(env, trace, n - 1);
      var a := StepTaken(env, trace, n - 1);
    }
  }

  // ------------------------------------------------- a wake-up can be lost

  lemma Extend(env: Env, trace: seq<State>, a: Action) returns (longer: seq<State>)
    requires Run(env, trace) && Enabled(env, trace[|trace| - 1], a)
    ensures longer == trace + [Next(env, trace[|trace| - 1], a)] && Run(env, longer)
  {
    var s' := Next(env, trace[|trace| - 1], a);
    longer := trace + [s'];
    forall i | 0 <= i < |longer| - 1 ensures Steps(env, longer[i], longer[i + 1]) {
      if i == |trace| - 1 {
        assert Enabled(env, longer[i], a) && longer[i + 1] == Next(env, longer[i], a);
      } else {
        assert Steps(env, trace[i], trace[i + 1]);
      }
    }
  }

  /**
   * What a throwing `build` spoils: a config is announced while the pass is loading, the load
   * saw the old config, `build` throws on it, and nothing runs for the new one.
   */
  lemma ThrowLosesWakeUp() returns (env: Env, trace: seq<State>)
    ensures Run(env, trace)
    ensures var s := trace[|trace| - 1];
            && s.at.Idle? && !s.stopped && s.rerun && s.last.Threw? && s.last.pass.since < s.notified
            && s.running == s.maps.channels == map[] != Running(env, s.db)
  {
    env := Env(["cron"], {}, (name: string, b: string) => if b == "[]" then Throws else Channel);
    trace := [Init(map["cron" := "[]"])];
    trace := Extend(env, trace, Notify);
    trace := Extend(env, trace, LoadDone(map["cron" := "[]"]));
    trace := Extend(env, trace, ConfigChange(map["cron" := "{}"]));
    trace := Extend(env, trace, Notify);
    trace := Extend(env, trace, ApplyOne);
    assert "cron" in Running(env, map["cron" := "{}"]);
  }

  // ----------------------------------------- stopAll can leave a channel

  function OneChannel(): Env {
    Env(["cron"], {}, (name: string, b: string) => Channel)
  }

  /** A run in which the only channel is up and the pass is about to replace it. */
  lemma AboutToReplace() returns (trace: seq<State>)
    ensures Run(OneChannel(), trace)
    ensures var s := trace[|trace| - 1];
            && s.at == Stopping(Pass(2, map["cron" := "[1]"], true), 0)
            && !s.stopped && !s.cleared && s.maps.channels == map["cron" := "{}"] && s.running == map[]
  {
    var env, db, db' := OneChannel(), map["cron" := "{}"], map["cron" := "[1]"];
    trace := [Init(db)];
    trace := Extend(env, trace, Notify);
    trace := Extend(env, trace, LoadDone(db));
    trace := Extend(env, trace, ApplyOne);
    trace := Extend(env, trace, EndPass);
    assert trace[4].at.Idle? && trace[4].maps == Maps(map["cron" := On("{}")], map["cron" := "{}"]);
    trace := Extend(env, trace, ConfigChange(db'));
    trace := Extend(env, trace, Notify);
    trace := Extend(env, trace, LoadDone(db'));
    trace := Extend(env, trace, ApplyOne);
  }

  /** The swap ends after the maps were emptied: the new channel runs, and the map holds it. */
  lemma StopAllLeavesChannel() returns (trace: seq<State>)
    ensures Run(OneChannel(), trace)
    ensures var s := trace[|trace| - 1];
            && s.at.Idle? && s.stopped && s.cleared
            && s.running == s.maps.channels == map["cron" := "[1]"]
  {
    var env := OneChannel();
    trace := AboutToReplace();
    trace := Extend(env, trace, StopAll);
    trace := Extend(env, trace, StopAllDone);
    trace := Extend(env, trace, StopDone);
    trace := Extend(env, trace, EndPass);
  }

  /** The swap ends before the maps are emptied: the new channel runs, and nothing refers to it. */
  lemma StopAllHidesChannel() returns (trace: seq<State>)
    ensures Run(OneChannel(), trace)
    ensures var s := trace[|trace| - 1];
            && s.at.Idle? && s.stopped && s.cleared
            && s.running == map["cron" := "[1]"] && s.maps.channels == map[]
  {
    var env := OneChannel();
    trace := AboutToReplace();
    trace := Extend(env, trace, StopAll);
    trace := Extend(env, trace, StopDone);
    trace := Extend(env, trace, StopAllDone);
    trace := Extend(env, trace, EndPass);
  }
}
