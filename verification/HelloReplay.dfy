/**
 * The replay window of the gateway's `hello`: a timestamp check against a clock and a
 * nonce cache shared by all sessions. The signature check is a parameter.
 */
module HelloReplay {
  const HELLO_MAX_SKEW_SECS: int := 300

  datatype Hello = Hello(accessKey: string, ts: int, nonce: string, clientName: string, signature: string)

  datatype Verdict = Accepted | UnknownKey | Stale | Replayed | BadSignature

  /** The access keys the server knows and the signatures it accepts. */
  datatype Config = Config(accessKeys: set<string>, signed: Hello -> bool)

  /** A call of `verify_hello`, with the clock it read. Calls are listed in the order they took the lock. */
  datatype Call = Call(now: int, hello: Hello)

  function Abs(x: int): nat {
    if x < 0 then -x else x
  }

  predicate InWindow(c: Call) {
    Abs(c.now - c.hello.ts) <= HELLO_MAX_SKEW_SECS
  }

  /** The call gets as far as the nonce cache. */
  predicate ReachesCache(cfg: Config, c: Call) {
    c.hello.accessKey in cfg.accessKeys && InWindow(c)
  }

  function Prune(cache: map<string, int>, now: int): map<string, int> {
    map n | n in cache && now - cache[n] <= HELLO_MAX_SKEW_SECS * 2 :: cache[n]
  }

  function CacheNext(cfg: Config, cache: map<string, int>, c: Call): map<string, int> {
    if !ReachesCache(cfg, c) then cache
    else
      var pruned := Prune(cache, c.now);
      if c.hello.nonce in pruned then pruned else pruned[c.hello.nonce := c.now]
  }

  function Judge(cfg: Config, cache: map<string, int>, c: Call): Verdict {
    if c.hello.accessKey !in cfg.accessKeys then UnknownKey
    else if !InWindow(c) then Stale
    else if c.hello.nonce in Prune(cache, c.now) then Replayed
    else if !cfg.signed(c.hello) then BadSignature
    else Accepted
  }

  /** The nonce cache shared by all sessions of a server. */
  class NonceCache {
    var nonces: map<string, int>

    constructor ()
      ensures nonces == map[]
    {
      nonces := map[];
    }

    method VerifyHello(cfg: Config, now: int, hello: Hello) returns (v: Verdict)
      modifies this
      ensures v == Judge(cfg, old(nonces), Call(now, hello))
      ensures nonces == CacheNext(cfg, old(nonces), Call(now, hello))
    {
      if hello.accessKey !in cfg.accessKeys {
        return UnknownKey;
      }
      if Abs(now - hello.ts) > HELLO_MAX_SKEW_SECS {
        return Stale;
      }
      nonces := map n | n in nonces && now - nonces[n] <= HELLO_MAX_SKEW_SECS * 2 :: nonces[n];
      if hello.nonce in nonces {
        return Replayed;
      }
      nonces := nonces[hello.nonce := now];
      if !cfg.signed(hello) {
        return BadSignature;
      }
      return Accepted;
    }
  }

  // --------------------------------------------------------------- runs

  function CacheAfter(cfg: Config, calls: seq<Call>): map<string, int> {
    if calls == [] then map[]
    else CacheNext(cfg, CacheAfter(cfg, calls[..|calls| - 1]), calls[|calls| - 1])
  }

  function VerdictAt(cfg: Config, calls: seq<Call>, i: nat): Verdict
    requires i < |calls|
  {
    Judge(cfg, CacheAfter(cfg, calls[..i]), calls[i])
  }

  /** Call `i` put its nonce into the cache, whatever its signature turned out to be. */
  predicate Inserts(cfg: Config, calls: seq<Call>, i: nat) {
    && i < |calls| && ReachesCache(cfg, calls[i])
    && calls[i].hello.nonce !in Prune(CacheAfter(cfg, calls[..i]), calls[i].now)
  }

  /** Some call after `i` and before `m` reached the cache more than twice the skew past call `i`. */
  ghost predicate PrunedBetween(cfg: Config, calls: seq<Call>, i: nat, m: nat) {
    exists k ::
      && i < k < m <= |calls| && ReachesCache(cfg, calls[k])
      && calls[k].now - calls[i].now > HELLO_MAX_SKEW_SECS * 2
  }

  lemma CacheStep(cfg: Config, calls: seq<Call>, n: nat)
    requires n < |calls|
    ensures CacheAfter(cfg, calls[..n + 1]) == CacheNext(cfg, CacheAfter(cfg, calls[..n]), calls[n])
  {
    assert calls[..n + 1][..n] == calls[..n];
  }

  /** An inserted nonce stays cached, with its time, until a later call prunes it. */
  lemma {:induction false} NonceIsKept(cfg: Config, calls: seq<Call>, i: nat, m: nat)
    requires i < m <= |calls| && Inserts(cfg, calls, i) && !PrunedBetween(cfg, calls, i, m)
    ensures var cache := CacheAfter(cfg, calls[..m]);
            calls[i].hello.nonce in cache && cache[calls[i].hello.nonce] == calls[i].now
    decreases m
  {
    CacheStep(cfg, calls, m - 1);
    if i < m - 1 {
      assert !PrunedBetween(cfg, calls, i, m - 1);
      NonceIsKept(cfg, calls, i, m - 1);
      assert ReachesCache(cfg, calls[m - 1]) ==> calls[m - 1].now - calls[i].now <= HELLO_MAX_SKEW_SECS * 2;
    }
  }

  /** Calls `i` and `m` have one nonce, call `i` inserted it, and no call in between inserted it again. */
  ghost predicate LastInsertedBy(cfg: Config, calls: seq<Call>, i: nat, m: nat) {
    && i < m < |calls| && Inserts(cfg, calls, i) && calls[i].hello.nonce == calls[m].hello.nonce
    && forall k :: i < k < m && Inserts(cfg, calls, k) ==> calls[k].hello.nonce != calls[m].hello.nonce
  }

  /** Once pruned, a nonce is gone until it is inserted again. */
  lemma {:induction false} NonceIsGone(cfg: Config, calls: seq<Call>, i: nat, m: nat)
    requires i < m <= |calls| && Inserts(cfg, calls, i) && PrunedBetween(cfg, calls, i, m)
    requires forall k :: i < k < m && Inserts(cfg, calls, k) ==> calls[k].hello.nonce != calls[i].hello.nonce
    ensures calls[i].hello.nonce !in CacheAfter(cfg, calls[..m])
    decreases m
  {
    CacheStep(cfg, calls, m - 1);
    if PrunedBetween(cfg, calls, i, m - 1) {
      NonceIsGone(cfg, calls, i, m - 1);
    } else {
      NonceIsKept(cfg, calls, i, m - 1);
    }
    assert Inserts(cfg, calls, m - 1) ==> calls[m - 1].hello.nonce != calls[i].hello.nonce;
  }

  /** A nonce that was inserted before call `m` has a last insertion. */
  lemma {:induction false} LastInsertion(cfg: Config, calls: seq<Call>, i: nat, m: nat) returns (l: nat)
    requires i < m < |calls| && Inserts(cfg, calls, i) && calls[i].hello.nonce == calls[m].hello.nonce
    ensures i <= l && LastInsertedBy(cfg, calls, l, m)
    decreases m - i
  {
    if k :| i < k < m && Inserts(cfg, calls, k) && calls[k].hello.nonce == calls[m].hello.nonce {
      l := LastInsertion(cfg, calls, k, m);
    } else {
      l := i;
    }
  }

  // ---------------------------------------------- every verdict, every run

  /** The key is known and the time stamp at most 300 seconds off the clock. */
  predicate Admissible(cfg: Config, c: Call) {
    c.hello.accessKey in cfg.accessKeys && -300 <= c.now - c.hello.ts <= 300
  }

  /**
   * Call `j` meets its own nonce: some earlier admissible call, not blocked itself, used it, and
   * no admissible call since, `j` included, came more than 600 seconds after that one.
   */
  ghost predicate Blocked(cfg: Config, calls: seq<Call>, j: nat)
    requires j < |calls|
    decreases j
  {
    exists l: nat :: l < j && Remembers(cfg, calls, l, j) && !Blocked(cfg, calls, l)
  }

  /** What call `l` would leave in the cache for call `j` to meet. */
  ghost predicate Remembers(cfg: Config, calls: seq<Call>, l: nat, j: nat)
    requires l < j < |calls|
  {
    && calls[l].hello.nonce == calls[j].hello.nonce && Admissible(cfg, calls[l])
    && forall k :: l < k <= j && Admissible(cfg, calls[k]) ==> calls[k].now - calls[l].now <= 600
  }

  lemma AdmissibleReaches(cfg: Config, c: Call)
    ensures Admissible(cfg, c) <==> ReachesCache(cfg, c)
  {
  }

  /** An admissible call finds its nonce cached exactly when it is blocked. */
  lemma {:induction false} CachedIffBlocked(cfg: Config, calls: seq<Call>, j: nat)
    requires j < |calls| && Admissible(cfg, calls[j])
    ensures calls[j].hello.nonce in Prune(CacheAfter(cfg, calls[..j]), calls[j].now) <==> Blocked(cfg, calls, j)
    decreases j
  {
    AdmissibleReaches(cfg, calls[j]);
    if calls[j].hello.nonce in Prune(CacheAfter(cfg, calls[..j]), calls[j].now) {
      var l := CachedBy(cfg, calls, j, calls[j].hello.nonce);
      CachedIffBlocked(cfg, calls, l);
      assert Remembers(cfg, calls, l, j);
    } else if Blocked(cfg, calls, j) {
      var l: nat :| l < j && Remembers(cfg, calls, l, j) && !Blocked(cfg, calls, l);
      CachedIffBlocked(cfg, calls, l);
      AdmissibleReaches(cfg, calls[l]);
      assert Inserts(cfg, calls, l);
      NotPruned(cfg, calls, l, j);
      NonceIsKept(cfg, calls, l, j);
    }
  }

  lemma NotPruned(cfg: Config, calls: seq<Call>, l: nat, j: nat)
    requires l < j < |calls| && Remembers(cfg, calls, l, j)
    ensures !PrunedBetween(cfg, calls, l, j)
  {
    forall k | l < k < j && ReachesCache(cfg, calls[k]) ensures calls[k].now - calls[l].now <= 600 {
      AdmissibleReaches(cfg, calls[k]);
    }
  }

  /** A cached nonce was inserted by some call, and no admissible call since was late enough to prune it. */
  lemma {:induction false} CachedBy(cfg: Config, calls: seq<Call>, m: nat, nonce: string) returns (l: nat)
    requires m <= |calls| && nonce in CacheAfter(cfg, calls[..m])
    ensures l < m && Inserts(cfg, calls, l) && Admissible(cfg, calls[l]) && calls[l].hello.nonce == nonce
    ensures CacheAfter(cfg, calls[..m])[nonce] == calls[l].now
    ensures forall k :: l < k < m && Admissible(cfg, calls[k]) ==> calls[k].now - calls[l].now <= 600
    decreases m
  {
    assert m > 0;
    CacheStep(cfg, calls, m - 1);
    AdmissibleReaches(cfg, calls[m - 1]);
    if Inserts(cfg, calls, m - 1) && calls[m - 1].hello.nonce == nonce {
      l := m - 1;
    } else {
      l := CachedBy(cfg, calls, m - 1, nonce);
    }
  }

  /**
   * The verdict of every call of every run, in terms of the calls alone. A hello is accepted iff
   * its key is known, its time stamp in the window, its nonce not blocked and it is signed; the
   * first of these that fails, in this order, is the reason given.
   */
  lemma VerdictIs(cfg: Config, calls: seq<Call>, j: nat)
    requires j < |calls|
    ensures var c, v := calls[j], VerdictAt(cfg, calls, j);
            var known, inWindow := c.hello.accessKey in cfg.accessKeys, -300 <= c.now - c.hello.ts <= 300;
            var blocked, signed := Blocked(cfg, calls, j), cfg.signed(c.hello);
            && (v == UnknownKey <==> !known)
            && (v == Stale <==> known && !inWindow)
            && (v == Replayed <==> known && inWindow && blocked)
            && (v == BadSignature <==> known && inWindow && !blocked && !signed)
            && (v == Accepted <==> known && inWindow && !blocked && signed)
  {
    if Admissible(cfg, calls[j]) {
      CachedIffBlocked(cfg, calls, j);
    }
  }

  /** A nonce never used before blocks nothing. */
  lemma NewNonceIsFree(cfg: Config, calls: seq<Call>, j: nat)
    requires j < |calls| && forall i :: 0 <= i < j ==> calls[i].hello.nonce != calls[j].hello.nonce
    ensures !Blocked(cfg, calls, j)
    ensures VerdictAt(cfg, calls, j) == Accepted <==> Admissible(cfg, calls[j]) && cfg.signed(calls[j].hello)
  {
    VerdictIs(cfg, calls, j);
  }

  /**
   * The exact condition, for any clock and any calls in between: with `l` the call that last
   * inserted its nonce, a correctly signed hello is accepted at `j` iff its time stamp is in
   * the window and some call after `l`, `j` itself included, reached the cache with a clock
   * more than twice the skew past `l`.
   */
  lemma AcceptedIff(cfg: Config, calls: seq<Call>, l: nat, j: nat)
    requires LastInsertedBy(cfg, calls, l, j)
    requires calls[j].hello.accessKey in cfg.accessKeys && cfg.signed(calls[j].hello)
    ensures VerdictAt(cfg, calls, j) == Accepted <==> InWindow(calls[j]) && PrunedBetween(cfg, calls, l, j + 1)
  {
    if PrunedBetween(cfg, calls, l, j) {
      var k :| l < k < j && ReachesCache(cfg, calls[k]) && calls[k].now - calls[l].now > HELLO_MAX_SKEW_SECS * 2;
      assert PrunedBetween(cfg, calls, l, j + 1);
      NonceIsGone(cfg, calls, l, j);
    } else {
      NonceIsKept(cfg, calls, l, j);
    }
  }

  /**
   * For a hello that was accepted at `i`, whatever was tried since: it is accepted again at
   * `j` iff it is in the window and what the last insertion `l` cached was pruned in between;
   * call `j` itself cannot prune it when call `i` was the last insertion.
   */
  lemma ReplayIff(cfg: Config, calls: seq<Call>, i: nat, j: nat) returns (l: nat)
    requires i < j < |calls| && calls[i].hello == calls[j].hello && VerdictAt(cfg, calls, i) == Accepted
    ensures i <= l && LastInsertedBy(cfg, calls, l, j)
    ensures VerdictAt(cfg, calls, j) == Accepted <==> InWindow(calls[j]) && PrunedBetween(cfg, calls, l, j + 1)
    ensures l == i && InWindow(calls[j]) ==> (PrunedBetween(cfg, calls, l, j + 1) <==> PrunedBetween(cfg, calls, l, j))
  {
    l := LastInsertion(cfg, calls, i, j);
    AcceptedIff(cfg, calls, l, j);
    if PrunedBetween(cfg, calls, l, j) {
      var k :| l < k < j && ReachesCache(cfg, calls[k]) && calls[k].now - calls[l].now > HELLO_MAX_SKEW_SECS * 2;
      assert PrunedBetween(cfg, calls, l, j + 1);
    }
  }

  /** Two accepted hellos with one nonce are more than twice the skew apart, on a steady clock. */
  lemma NonceReuseIsLate(cfg: Config, calls: seq<Call>, i: nat, j: nat)
    requires forall a, b :: 0 <= a <= b < |calls| ==> calls[a].now <= calls[b].now
    requires i < j < |calls| && calls[i].hello.nonce == calls[j].hello.nonce
    requires VerdictAt(cfg, calls, i) == Accepted && VerdictAt(cfg, calls, j) == Accepted
    ensures calls[j].now - calls[i].now > HELLO_MAX_SKEW_SECS * 2
  {
    if !PrunedBetween(cfg, calls, i, j) {
      NonceIsKept(cfg, calls, i, j);
    }
  }

  /**
   * With clock readings nondecreasing in lock order, no two hellos with one nonce and one time
   * stamp are both accepted in any run, however their signatures are written.
   */
  lemma NoReplay(cfg: Config, calls: seq<Call>, i: nat, j: nat)
    requires forall a, b :: 0 <= a <= b < |calls| ==> calls[a].now <= calls[b].now
    requires i < j < |calls|
    requires calls[i].hello.nonce == calls[j].hello.nonce && calls[i].hello.ts == calls[j].hello.ts
    ensures VerdictAt(cfg, calls, i) != Accepted || VerdictAt(cfg, calls, j) != Accepted
  {
    if VerdictAt(cfg, calls, i) == Accepted && VerdictAt(cfg, calls, j) == Accepted {
      NonceReuseIsLate(cfg, calls, i, j);
    }
  }

  /**
   * Whatever the clock does: if both are accepted, a call in between read a clock ahead of the
   * second acceptance.
   */
  lemma ReplayNeedsClockStep(cfg: Config, calls: seq<Call>, i: nat, j: nat)
    requires i < j < |calls|
    requires calls[i].hello.nonce == calls[j].hello.nonce && calls[i].hello.ts == calls[j].hello.ts
    requires VerdictAt(cfg, calls, i) == Accepted && VerdictAt(cfg, calls, j) == Accepted
    ensures exists k :: i < k < j && calls[k].now > calls[j].now
  {
    assert calls[j].now - calls[i].now <= HELLO_MAX_SKEW_SECS * 2;
    if !PrunedBetween(cfg, calls, i, j) {
      NonceIsKept(cfg, calls, i, j);
    } else {
      var k :| i < k < j && ReachesCache(cfg, calls[k]) && calls[k].now - calls[i].now > HELLO_MAX_SKEW_SECS * 2;
      assert calls[k].now > calls[j].now;
    }
  }

  /** A clock that jumps ahead for one call and back again lets the same hello in twice. */
  lemma ClockStepReplays() returns (cfg: Config, calls: seq<Call>)
    ensures |calls| == 3 && calls[0] == calls[2] && calls[0].now == 0 && calls[1].now == 601
    ensures VerdictAt(cfg, calls, 0) == Accepted && VerdictAt(cfg, calls, 2) == Accepted
  {
    cfg := Config({"key"}, (h: Hello) => true);
    var first, other := Hello("key", 0, "n1", "client", ""), Hello("key", 601, "n2", "client", "");
    calls := [Call(0, first), Call(601, other), Call(0, first)];
    assert calls[..0] == [];
    CacheStep(cfg, calls, 0);
    CacheStep(cfg, calls, 1);
    assert "n1" in CacheAfter(cfg, calls[..1]) && CacheAfter(cfg, calls[..1])["n1"] == 0;
    assert "n1" !in CacheAfter(cfg, calls[..2]);
  }
}
