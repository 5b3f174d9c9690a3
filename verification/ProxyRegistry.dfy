/**
 * The proxy registry: two hash maps, token to entry and (agent, name) to token,
 * that together represent one map from (agent, name) to entry.
 */
module ProxyRegistry {
  import opened Basics

  datatype Key = Key(agentId: string, name: string)

  datatype Entry = Entry(key: Key, upstreamUrl: string, headers: map<string, string>, token: string)

  datatype Inner = Inner(byToken: map<string, Entry>, index: map<Key, string>)

  /** The two maps are inverse to each other. */
  ghost predicate Consistent(r: Inner) {
    && (forall k :: k in r.index ==> r.index[k] in r.byToken && r.byToken[r.index[k]].key == k)
    && (forall t :: t in r.byToken ==>
          r.byToken[t].token == t && r.byToken[t].key in r.index && r.index[r.byToken[t].key] == t)
  }

  /** The plain map the registry represents. */
  function Entries(r: Inner): map<Key, Entry>
    requires Consistent(r)
  {
    map k | k in r.index :: r.byToken[r.index[k]]
  }

  function Unregistered(r: Inner, k: Key): Inner {
    if k in r.index then Inner(r.byToken - {r.index[k]}, r.index - {k}) else r
  }

  function Registered(r: Inner, e: Entry): Inner {
    var rest := Unregistered(r, e.key);
    Inner(rest.byToken[e.token := e], rest.index[e.key := e.token])
  }

  /** Dropping a key drops exactly its entry and its token. */
  lemma UnregisterRefines(r: Inner, k: Key)
    requires Consistent(r)
    ensures Consistent(Unregistered(r, k))
    ensures Entries(Unregistered(r, k)) == Entries(r) - {k}
    ensures Unregistered(r, k).byToken.Keys == r.byToken.Keys - (if k in r.index then {r.index[k]} else {})
  {
    var r' := Unregistered(r, k);
    if k in r.index {
      forall j | j in r'.index ensures r'.index[j] in r'.byToken {
        assert r.index[j] == r.index[k] ==> j == k;
      }
    }
  }

  /** Registering sets exactly one key; a replaced token stops resolving. */
  lemma RegisterRefines(r: Inner, e: Entry)
    requires Consistent(r) && e.token !in r.byToken
    ensures Consistent(Registered(r, e))
    ensures Entries(Registered(r, e)) == Entries(r)[e.key := e]
    ensures e.key in r.index ==> r.index[e.key] !in Registered(r, e).byToken
    ensures Registered(r, e).byToken.Keys ==
              r.byToken.Keys - (if e.key in r.index then {r.index[e.key]} else {}) + {e.token}
  {
    UnregisterRefines(r, e.key);
    InsertRefines(Unregistered(r, e.key), e);
  }

  lemma InsertRefines(r: Inner, e: Entry)
    requires Consistent(r) && e.token !in r.byToken && e.key !in r.index
    ensures var r' := Inner(r.byToken[e.token := e], r.index[e.key := e.token]);
            Consistent(r') && Entries(r') == Entries(r)[e.key := e]
  {
  }

  /** A token resolves iff it is the token of a registered entry, and then to that entry. */
  lemma LookupRefines(r: Inner, token: string)
    requires Consistent(r)
    ensures token in r.byToken <==> exists k :: k in Entries(r) && Entries(r)[k].token == token
    ensures token in r.byToken ==> r.byToken[token] == Entries(r)[r.byToken[token].key]
  {
    if token in r.byToken {
      assert r.byToken[token].key in Entries(r);
    }
  }

  function AgentKeys(r: Inner, agentId: string): set<Key> {
    set k | k in r.index && k.agentId == agentId
  }

  /**
   * The registry of one gateway. `issued` records every token ever given out; the token
   * passed to `Register` stands for a freshly generated one.
   */
  class Registry {
    var byToken: map<string, Entry>
    var index: map<Key, string>
    ghost var issued: set<string>

    ghost function State(): Inner
      reads this
    {
      Inner(byToken, index)
    }

    ghost predicate Valid()
      reads this
    {
      Consistent(State()) && byToken.Keys <= issued
    }

    constructor ()
      ensures Valid() && Entries(State()) == map[] && issued == {}
    {
      byToken, index, issued := map[], map[], {};
    }

    method Register(key: Key, upstreamUrl: string, headers: map<string, string>, token: string) returns (e: Entry)
      requires Valid() && token !in issued
      modifies this
      ensures Valid() && issued == old(issued) + {token}
      ensures e == Entry(key, upstreamUrl, headers, token)
      ensures Entries(State()) == Entries(old(State()))[key := e]
      ensures key in old(index) ==> old(index)[key] !in byToken
    {
      RegisterRefines(State(), Entry(key, upstreamUrl, headers, token));
      if key in index {
        var oldToken := index[key];
        index := index - {key};
        byToken := byToken - {oldToken};
      }
      e := Entry(key, upstreamUrl, headers, token);
      index := index[key := token];
      byToken := byToken[token := e];
      issued := issued + {token};
    }

    method Unregister(key: Key) returns (removed: bool)
      requires Valid()
      modifies this
      ensures Valid() && issued == old(issued)
      ensures removed <==> key in Entries(old(State()))
      ensures Entries(State()) == Entries(old(State())) - {key}
    {
      UnregisterRefines(State(), key);
      removed := key in index;
      if removed {
        var token := index[key];
        index := index - {key};
        byToken := byToken - {token};
      }
    }

    /** Removes and counts exactly the entries of one agent. */
    method CleanupForAgent(agentId: string) returns (count: nat)
      requires Valid()
      modifies this
      ensures Valid() && issued == old(issued)
      ensures count == |AgentKeys(old(State()), agentId)|
      ensures Entries(State()) == Entries(old(State())) - AgentKeys(old(State()), agentId)
    {
      var toRemove := set k | k in index && k.agentId == agentId;
      count := |toRemove|;
      while toRemove != {}
        invariant Valid() && issued == old(issued)
        invariant Entries(State()) - toRemove == Entries(old(State())) - AgentKeys(old(State()), agentId)
        decreases |toRemove|
      {
        var key :| key in toRemove;
        toRemove := toRemove - {key};
        var _ := Unregister(key);
      }
    }

    method Lookup(token: string) returns (e: Option<Entry>)
      requires Valid()
      ensures e.Some? <==> exists k :: k in Entries(State()) && Entries(State())[k].token == token
      ensures e.Some? ==>
                e.value.token == token && e.value.key in Entries(State()) && Entries(State())[e.value.key] == e.value
    {
      LookupRefines(State(), token);
      e := if token in byToken then Some(byToken[token]) else None;
    }
  }

  // ---------------------------------------------------------- whole runs

  datatype Action = Register(entry: Entry) | Unregister(key: Key) | Cleanup(agentId: string)

  function CleanedUp(r: Inner, agentId: string): Inner {
    Inner(map t | t in r.byToken && r.byToken[t].key.agentId != agentId :: r.byToken[t],
          map k | k in r.index && k.agentId != agentId :: r.index[k])
  }

  /** Each registration in a run brings a token never seen before in it. */
  ghost predicate FreshTokens(actions: seq<Action>) {
    forall i, j :: 0 <= i < j < |actions| && actions[i].Register? && actions[j].Register? ==>
      actions[i].entry.token != actions[j].entry.token
  }

  function After(actions: seq<Action>): Inner {
    if actions == [] then Inner(map[], map[])
    else
      var r := After(actions[..|actions| - 1]);
      match actions[|actions| - 1]
      case Register(e) => Registered(r, e)
      case Unregister(k) => Unregistered(r, k)
      case Cleanup(agentId) => CleanedUp(r, agentId)
  }

  /** The plain map after the same actions. */
  function Spec(actions: seq<Action>): map<Key, Entry> {
    if actions == [] then map[]
    else
      var m := Spec(actions[..|actions| - 1]);
      match actions[|actions| - 1]
      case Register(e) => m[e.key := e]
      case Unregister(k) => m - {k}
      case Cleanup(agentId) => map k | k in m && k.agentId != agentId :: m[k]
  }

  /** Through every run the two maps stay inverse and represent the plain map. */
  lemma {:induction false} RunRefines(actions: seq<Action>)
    requires FreshTokens(actions)
    ensures Consistent(After(actions)) && Entries(After(actions)) == Spec(actions)
    ensures forall t :: t in After(actions).byToken ==>
              exists i :: 0 <= i < |actions| && actions[i].Register? && actions[i].entry.token == t
  {
    if actions != [] {
      var n := |actions| - 1;
      var earlier := actions[..n];
      RunRefines(earlier);
      var r := After(earlier);
      assert forall i :: 0 <= i < n ==> earlier[i] == actions[i];
      match actions[n]
      case Register(e) =>
        RegisterRefines(r, e);
        assert actions[n].entry.token == e.token;
      case Unregister(k) => UnregisterRefines(r, k);
      case Cleanup(agentId) => CleanupRefines(r, agentId);
    }
  }

  lemma CleanupRefines(r: Inner, agentId: string)
    requires Consistent(r)
    ensures Consistent(CleanedUp(r, agentId))
    ensures Entries(CleanedUp(r, agentId)) == map k | k in Entries(r) && k.agentId != agentId :: Entries(r)[k]
  {
  }

  /** The action replaces or drops what is registered under the key. */
  predicate Ends(a: Action, key: Key) {
    match a
    case Register(e) => e.key == key
    case Unregister(k) => k == key
    case Cleanup(agentId) => agentId == key.agentId
  }

  /**
   * An old token stays dead: once its key was registered again or unregistered, or its agent
   * cleaned up, it never resolves in the rest of the run.
   */
  lemma {:induction false} OldTokenIsDead(actions: seq<Action>, i: nat, j: nat)
    requires FreshTokens(actions) && i < j < |actions| && actions[i].Register?
    requires Ends(actions[j], actions[i].entry.key)
    ensures actions[i].entry.token !in After(actions).byToken
  {
    var n := |actions| - 1;
    var earlier := actions[..n];
    RunRefines(earlier);
    if j < n {
      OldTokenIsDead(earlier, i, j);
    } else {
      TokenBelongsToKey(earlier, i);
    }
  }

  /** A token that resolves resolves to the entry it was registered with. */
  lemma {:induction false} TokenBelongsToKey(actions: seq<Action>, i: nat)
    requires FreshTokens(actions) && i < |actions| && actions[i].Register?
    ensures actions[i].entry.token in After(actions).byToken ==>
              After(actions).byToken[actions[i].entry.token] == actions[i].entry
  {
    var n := |actions| - 1;
    var earlier := actions[..n];
    RunRefines(earlier);
    if i < n {
      TokenBelongsToKey(earlier, i);
    }
  }
}
