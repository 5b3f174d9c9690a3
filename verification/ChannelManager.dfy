/**
 * `ChannelManager`: reconcile passes are serialized, a notification during a pass schedules
 * one more, and each pass brings the running channels to what the loaded configs ask for.
 * A pass gives up control while it loads and while it stops a channel; the machine below
 * lets notifications, config changes and `stopAll` happen between any two of its steps.
 */
module ChannelManager {
  import opened Basics

  /** Channel configs as loaded: name to the JSON text of its bucket. */
  type Configs = map<string, string>

  datatype Built = Channel | Disabled | Throws

  /** The registered channels, those that run without a config, and what `build` does. */
  datatype Env = Env(known: seq<string>, alwaysOn: set<string>, build: (string, string) -> Built)

  ghost predicate ValidEnv(env: Env) {
    forall i, j :: 0 <= i < j < |env.known| ==> env.known[i] != env.known[j]
  }

  /** An applied config: the text of the bucket, or intentionally not running. */
  datatype Hash = Off | On(text: string)

  /** What has been applied per name, and the running channels with the bucket each was built from. */
  datatype Maps = Maps(applied: map<string, Hash>, channels: map<string, string>)

  /** A JSON `null` counts as no bucket. */
  function BucketOf(env: Env, all: Configs, name: string): Option<string> {
    if name in all && all[name] != "null" then Some(all[name])
    else if name in env.alwaysOn then Some("{}")
    else None
  }

  function Want(env: Env, all: Configs, name: string): Built {
    match BucketOf(env, all, name)
    case None => Disabled
    case Some(b) => env.build(name, b)
  }

  function WantHash(env: Env, all: Configs, name: string): Hash {
    if Want(env, all, name).Channel? && BucketOf(env, all, name).Some? then On(BucketOf(env, all, name).value) else Off
  }

  function Swap(m: Maps, name: string, hash: Hash): Maps {
    Maps(m.applied[name := hash], if hash.On? then m.channels[name := hash.text] else m.channels - {name})
  }

  // ---------------------------------------------- what a pass has to reach

  /** The channels that `build` yields on a load, each with its bucket. */
  function Running(env: Env, all: Configs): map<string, string> {
    map name | name in env.known && WantHash(env, all, name).On? :: WantHash(env, all, name).text
  }

  function Applied(env: Env, all: Configs): map<string, Hash> {
    map name | name in env.known :: WantHash(env, all, name)
  }

  /**
   * What a load asks for: a known channel runs with its stored bucket if it has one that is not
   * null, else with the empty bucket if it is always on, and in either case only if `build`
   * yields a channel for that bucket. Every known name is recorded, the others as off.
   */
  lemma LoadAsksFor(env: Env, all: Configs, name: string)
    ensures var stored := name in all && all[name] != "null";
            var runs := || (stored && env.build(name, all[name]).Channel?)
                        || (!stored && name in env.alwaysOn && env.build(name, "{}").Channel?);
            && (name in Running(env, all) <==> name in env.known && runs)
            && (name in Running(env, all) ==> Running(env, all)[name] == if stored then all[name] else "{}")
            && (name in Applied(env, all) <==> name in env.known)
            && (name in Applied(env, all) ==>
                  Applied(env, all)[name] == if runs then On(if stored then all[name] else "{}") else Off)
  {
  }

  /** The running channels are exactly the applied ones. */
  ghost predicate Agree(env: Env, m: Maps) {
    && m.channels.Keys <= m.applied.Keys <= (set name | name in env.known)
    && forall name :: name in m.applied ==>
         m.applied[name] == (if name in m.channels then On(m.channels[name]) else Off)
  }

  /** The first `n` known names are as the load asks. */
  ghost predicate Reached(env: Env, m: Maps, all: Configs, n: int) {
    forall i :: 0 <= i < n <= |env.known| ==> Done(env, m, all, env.known[i])
  }

  predicate Done(env: Env, m: Maps, all: Configs, name: string) {
    name in m.applied && m.applied[name] == WantHash(env, all, name) && !Want(env, all, name).Throws?
  }

  predicate SameAt(a: map<string, Hash>, b: map<string, Hash>, name: string) {
    (name in a <==> name in b) && (name in a && name in b ==> a[name] == b[name])
  }

  lemma SwapAgrees(env: Env, m: Maps, name: string, hash: Hash)
    requires Agree(env, m) && name in env.known
    ensures Agree(env, Swap(m, name, hash))
  {
  }

  lemma SwapReaches(env: Env, m: Maps, all: Configs, n: nat)
    requires ValidEnv(env) && n < |env.known| && Reached(env, m, all, n) && !Want(env, all, env.known[n]).Throws?
    ensures Reached(env, Swap(m, env.known[n], WantHash(env, all, env.known[n])), all, n + 1)
  {
    var m' := Swap(m, env.known[n], WantHash(env, all, env.known[n]));
    forall i | 0 <= i < n + 1 ensures Done(env, m', all, env.known[i]) {
      assert i < n ==> env.known[i] != env.known[n] && Done(env, m, all, env.known[i]);
    }
  }

  /** The names from the `n`-th on are as they were in `was`. */
  ghost predicate Untouched(env: Env, was: Maps, m: Maps, n: int) {
    forall i :: 0 <= n <= i < |env.known| ==> SameAt(m.applied, was.applied, env.known[i])
  }

  ghost predicate PassInv(env: Env, was: Maps, m: Maps, all: Configs, n: nat) {
    n <= |env.known| && Agree(env, m) && Reached(env, m, all, n) && Untouched(env, was, m, n)
  }

  /** One turn of the loop: an unchanged config is skipped. */
  function Turn(env: Env, m: Maps, all: Configs, name: string): Maps {
    var hash := WantHash(env, all, name);
    if name in m.applied && m.applied[name] == hash then m else Swap(m, name, hash)
  }

  lemma TurnKeeps(env: Env, was: Maps, m: Maps, all: Configs, n: nat)
    requires ValidEnv(env) && PassInv(env, was, m, all, n) && n < |env.known| && !Want(env, all, env.known[n]).Throws?
    ensures PassInv(env, was, Turn(env, m, all, env.known[n]), all, n + 1)
  {
    var name := env.known[n];
    var m' := Turn(env, m, all, name);
    if m' == m {
      assert Done(env, m, all, name);
    } else {
      SwapAgrees(env, m, name, WantHash(env, all, name));
      SwapReaches(env, m, all, n);
    }
    forall i | n + 1 <= i < |env.known| ensures SameAt(m'.applied, was.applied, env.known[i]) {
      assert SameAt(m.applied, was.applied, env.known[i]) && env.known[i] != name;
    }
  }

  lemma ReachedAll(env: Env, m: Maps, all: Configs)
    requires Agree(env, m) && Reached(env, m, all, |env.known|)
    ensures m.channels == Running(env, all) && m.applied == Applied(env, all)
  {
    assert forall name :: name in env.known ==> Done(env, m, all, name);
    assert m.applied == Applied(env, all);
  }

  // -------------------------------------------------------- one whole pass

  class Manager {
    var applied: map<string, Hash>
    var channels: map<string, string>

    ghost function View(): Maps
      reads this
    {
      Maps(applied, channels)
    }

    constructor ()
      ensures View() == Maps(map[], map[])
    {
      applied, channels := map[], map[];
    }

    /** Takes a running channel out of the map, puts the wanted one in, and records its hash. */
    method Replace(name: string, hash: Hash)
      modifies this
      ensures View() == Swap(old(View()), name, hash)
    {
      if name in channels {
        channels := channels - {name};
      }
      if hash.On? {
        channels := channels[name := hash.text];
      }
      applied := applied[name := hash];
      assert name !in old(channels) ==> old(channels) - {name} == old(channels);
    }

    /**
     * A pass that nobody stops: without a throw it reaches the load exactly; a throw leaves
     * the names before the throwing one done and the others as they were.
     */
    method DoReconcile(env: Env, all: Configs) returns (threw: Option<nat>)
      requires ValidEnv(env) && Agree(env, View())
      modifies this
      ensures Agree(env, View())
      ensures threw.None? ==> channels == Running(env, all) && applied == Applied(env, all)
      ensures threw.Some? ==> threw.value < |env.known| && Want(env, all, env.known[threw.value]).Throws?
      ensures threw.Some? ==> PassInv(env, old(View()), View(), all, threw.value)
    {
      var i := 0;
      while i < |env.known|
        invariant PassInv(env, old(View()), View(), all, i)
      {
        ghost var before := View();
        var name := env.known[i];
        if Want(env, all, name).Throws? {
          return Some(i);
        }
        TurnKeeps(env, old(View()), before, all, i);
        i := i + 1;
        var hash := WantHash(env, all, name);
        if name in applied && applied[name] == hash {
          continue;
        }
        Replace(name, hash);
      }
      ReachedAll(env, View(), all);
      return None;
    }
  }
}
