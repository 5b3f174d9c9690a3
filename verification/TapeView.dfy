/**
 * `TapeView.applyEdits`: the view of a tape with redactions and amendments
 * applied, and the ranges that `Tape.redact` and `Tape.amend` resolve.
 */
module TapeView {
  /** A missing `targetId` is 0 and a missing list is empty: the code treats both alike. */
  datatype Kind =
    | Redaction(targetId: int)
    | Amendment(targetIds: seq<int>, replacement: seq<Entry>)
    | Fact(payload: string)

  datatype Entry = Entry(id: int, kind: Kind)

  /** An effective amendment. */
  datatype Edit = Edit(targetIds: seq<int>, replacement: seq<Entry>)

  /** What the edit loop works on. */
  datatype Log = Log(entries: seq<Entry>, redacted: set<int>, edits: seq<Edit>)

  predicate IsEdit(e: Entry) {
    e.kind.Redaction? || e.kind.Amendment?
  }

  predicate RedactsSomething(e: Entry) {
    e.kind.Redaction? && e.kind.targetId != 0
  }

  predicate AmendsSomething(e: Entry) {
    e.kind.Amendment? && e.kind.targetIds != [] && e.kind.replacement != []
  }

  function Redacted(entries: seq<Entry>): set<int> {
    set e | e in entries && RedactsSomething(e) :: e.kind.targetId
  }

  function Edits(entries: seq<Entry>): seq<Edit> {
    if entries == [] then []
    else
      var n := |entries| - 1;
      var e := entries[n];
      Edits(entries[..n]) + (if AmendsSomething(e) then [Edit(e.kind.targetIds, e.kind.replacement)] else [])
  }

  function LogOf(entries: seq<Entry>): Log {
    Log(entries, Redacted(entries), Edits(entries))
  }

  /** Every id some amendment targets. */
  function Targets(edits: seq<Edit>): set<int> {
    if edits == [] then {}
    else
      var n := |edits| - 1;
      Targets(edits[..n]) + (set id | id in edits[n].targetIds)
  }

  /** The first amendment that targets `id`, or the number of amendments. */
  function FirstEdit(edits: seq<Edit>, id: int): (k: nat)
    ensures k <= |edits|
    ensures k < |edits| ==> id in edits[k].targetIds
    ensures forall j :: 0 <= j < k ==> id !in edits[j].targetIds
  {
    if edits == [] then 0
    else if id in edits[0].targetIds then 0
    else 1 + FirstEdit(edits[1..], id)
  }

  function MaxOf(ids: seq<int>): (m: int)
    requires ids != []
    ensures m in ids && forall id :: id in ids ==> id <= m
  {
    if |ids| == 1 then ids[0]
    else
      assert ids == [ids[0]] + ids[1..];
      var m := MaxOf(ids[1..]);
      if ids[0] >= m then ids[0] else m
  }

  function MinOf(ids: seq<int>): (m: int)
    requires ids != []
    ensures m in ids && forall id :: id in ids ==> m <= id
  {
    if |ids| == 1 then ids[0]
    else
      assert ids == [ids[0]] + ids[1..];
      var m := MinOf(ids[1..]);
      if ids[0] <= m then ids[0] else m
  }

  predicate WellFormed(log: Log) {
    forall k :: 0 <= k < |log.edits| ==> log.edits[k].targetIds != []
  }

  predicate Survives(log: Log, i: nat)
    requires i < |log.entries|
  {
    !IsEdit(log.entries[i]) && log.entries[i].id !in log.redacted
  }

  /** The first position from `i` on whose id is above `maxId`. */
  function SkipTo(entries: seq<Entry>, i: nat, maxId: int): (s: nat)
    requires i <= |entries|
    ensures i <= s <= |entries|
    ensures forall j :: i <= j < s ==> entries[j].id <= maxId
    ensures s < |entries| ==> entries[s].id > maxId
    decreases |entries| - i
  {
    if i < |entries| && entries[i].id <= maxId then SkipTo(entries, i + 1, maxId) else i
  }

  /** One element of the output: an original kept, or an amendment's replacement. */
  datatype Piece = Kept(index: nat) | Replaced(edit: nat)

  /** The edit loop from position `i`, with `live` the ids still waiting for their amendment. */
  function Walk(log: Log, live: set<int>, i: nat): seq<Piece>
    requires WellFormed(log) && i <= |log.entries|
    decreases |log.entries| - i
  {
    if i == |log.entries| then []
    else if !Survives(log, i) then Walk(log, live, i + 1)
    else
      var id := log.entries[i].id;
      var k := FirstEdit(log.edits, id);
      if id in live && k < |log.edits| then
        var targets := log.edits[k].targetIds;
        [Replaced(k)] + Walk(log, live - (set t | t in targets), SkipTo(log.entries, i, MaxOf(targets)))
      else [Kept(i)] + Walk(log, live, i + 1)
  }

  function Content(log: Log, p: Piece): seq<Entry> {
    match p
    case Kept(i) => if i < |log.entries| then [log.entries[i]] else []
    case Replaced(k) => if k < |log.edits| then log.edits[k].replacement else []
  }

  function Render(log: Log, pieces: seq<Piece>): seq<Entry> {
    if pieces == [] then []
    else Content(log, pieces[0]) + Render(log, pieces[1..])
  }

  // --------------------------------------------------------- the method

  lemma RenderStep(log: Log, done: seq<Entry>, p: Piece, rest: seq<Piece>)
    ensures done + Render(log, [p] + rest) == (done + Content(log, p)) + Render(log, rest)
  {
    assert ([p] + rest)[1..] == rest;
  }

  /** The two collecting loops at the head of `applyEdits`. */
  method CollectEdits(entries: seq<Entry>) returns (log: Log, live: set<int>)
    ensures log == LogOf(entries) && live == Targets(log.edits) && WellFormed(log)
    ensures forall id :: id in log.redacted <==> RedactedIn(entries, id)
    ensures exists source :: Sources(entries, source)
  {
    var source := EditsAre(entries);
    forall id ensures id in Redacted(entries) <==> RedactedIn(entries, id) {
      RedactedIsIn(entries, id);
    }
    var redacted: set<int> := {};
    var edits: seq<Edit> := [];
    for i := 0 to |entries|
      invariant redacted == Redacted(entries[..i])
      invariant edits == Edits(entries[..i])
      invariant forall k :: 0 <= k < |edits| ==> edits[k].targetIds != []
    {
      var e := entries[i];
      assert entries[..i + 1][..i] == entries[..i];
      assert entries[..i + 1] == entries[..i] + [e];
      if e.kind.Redaction? {
        if e.kind.targetId != 0 {
          redacted := redacted + {e.kind.targetId};
        }
      }
      if e.kind.Amendment? {
        if e.kind.targetIds != [] && e.kind.replacement != [] {
          edits := edits + [Edit(e.kind.targetIds, e.kind.replacement)];
        }
      }
    }
    assert entries[..|entries|] == entries;
    log := Log(entries, redacted, edits);
    live := {};
    for k := 0 to |edits|
      invariant live == Targets(edits[..k])
    {
      live := live + (set id | id in edits[k].targetIds);
      assert edits[..k + 1][..k] == edits[..k];
    }
    assert edits[..|edits|] == edits;
  }

  /** `applyEdits`. */
  method ApplyEdits(entries: seq<Entry>) returns (result: seq<Entry>)
    ensures var log := LogOf(entries);
            WellFormed(log) &&
            result == if log.redacted == {} && log.edits == [] then entries
                      else Render(log, Walk(log, Targets(log.edits), 0))
    ensures !HasEffect(entries) ==> result == entries
    ensures HasEffect(entries) && Ranges(entries) && InOrderOrPlain(entries) ==>
              exists at :: Shows(entries, result, at)
  {
    var log, live := CollectEdits(entries);
    EffectIsFound(entries);
    if |log.redacted| == 0 && |log.edits| == 0 {
      return entries;
    }
    result := EditLoop(log, live);
    if Ranges(entries) && InOrderOrPlain(entries) {
      var at := ViewOfEntries(entries);
    }
  }

  method EditLoop(log: Log, targets: set<int>) returns (result: seq<Entry>)
    requires WellFormed(log)
    ensures result == Render(log, Walk(log, targets, 0))
  {
    ghost var whole := Render(log, Walk(log, targets, 0));
    var live := targets;
    result := [];
    var i := 0;
    while i < |log.entries|
      invariant 0 <= i <= |log.entries|
      invariant result + Render(log, Walk(log, live, i)) == whole
      decreases |log.entries| - i
    {
      var entry := log.entries[i];
      if IsEdit(entry) {
        i := i + 1;
        continue;
      }
      if entry.id in log.redacted {
        i := i + 1;
        continue;
      }
      if entry.id in live {
        var k := FirstEdit(log.edits, entry.id);
        if k < |log.edits| {
          var amendment := log.edits[k];
          var stillLive := live - (set t | t in amendment.targetIds);
          var next := Skip(log.entries, i, MaxOf(amendment.targetIds));
          RenderStep(log, result, Replaced(k), Walk(log, stillLive, next));
          result := result + amendment.replacement;
          live, i := stillLive, next;
          continue;
        }
      }
      RenderStep(log, result, Kept(i), Walk(log, live, i + 1));
      result := result + [entry];
      i := i + 1;
    }
  }

  /** The inner loop over positions whose id is at most `maxId`. */
  method Skip(entries: seq<Entry>, from: nat, maxId: int) returns (i: nat)
    requires from < |entries| && entries[from].id <= maxId
    ensures i == SkipTo(entries, from, maxId) && i > from
  {
    i := from;
    while i < |entries| && entries[i].id <= maxId
      invariant from <= i <= |entries| && SkipTo(entries, i, maxId) == SkipTo(entries, from, maxId)
    {
      i := i + 1;
    }
  }

  // ------------------------------------------------------ every edit list

  /** Kept originals appear in order, and none of them is an edit record or redacted. */
  lemma {:induction false} KeptInOrder(log: Log, live: set<int>, i: nat)
    requires WellFormed(log) && i <= |log.entries|
    ensures var w := Walk(log, live, i);
            && (forall p :: p in w && p.Kept? ==> i <= p.index < |log.entries| && Survives(log, p.index))
            && (forall a, b :: 0 <= a < b < |w| && w[a].Kept? && w[b].Kept? ==> w[a].index < w[b].index)
    decreases |log.entries| - i
  {
    if i < |log.entries| {
      var id := log.entries[i].id;
      var k := FirstEdit(log.edits, id);
      if Survives(log, i) && id in live && k < |log.edits| {
        var targets := log.edits[k].targetIds;
        KeptInOrder(log, live - (set t | t in targets), SkipTo(log.entries, i, MaxOf(targets)));
      } else {
        KeptInOrder(log, live, i + 1);
      }
    }
  }

  ghost predicate Hits(log: Log, live: set<int>, k: nat) {
    k < |log.edits| && exists t :: t in log.edits[k].targetIds && t in live
  }

  /** The pieces insert only amendments that some live id waits for, each at most once. */
  ghost predicate Once(log: Log, live: set<int>, w: seq<Piece>) {
    && (forall p :: p in w && p.Replaced? ==> Hits(log, live, p.edit))
    && (forall a, b :: 0 <= a < b < |w| && w[a].Replaced? && w[b].Replaced? ==> w[a].edit != w[b].edit)
  }

  lemma OnceAfterKept(log: Log, live: set<int>, i: nat, rest: seq<Piece>)
    requires Once(log, live, rest)
    ensures Once(log, live, [Kept(i)] + rest)
  {
    var w := [Kept(i)] + rest;
    assert forall b :: 0 < b < |w| ==> w[b] == rest[b - 1];
  }

  lemma OnceAfterReplaced(log: Log, live: set<int>, fewer: set<int>, k: nat, rest: seq<Piece>)
    requires Once(log, fewer, rest) && fewer <= live && Hits(log, live, k) && !Hits(log, fewer, k)
    ensures Once(log, live, [Replaced(k)] + rest)
  {
    var w := [Replaced(k)] + rest;
    forall j: nat | Hits(log, fewer, j) ensures Hits(log, live, j) {
      var t :| t in log.edits[j].targetIds && t in fewer;
      assert t in live;
    }
    assert forall b :: 0 < b < |w| ==> w[b] == rest[b - 1] && rest[b - 1] in rest;
  }

  /** Each amendment's replacement is inserted at most once. */
  lemma {:induction false} ReplacedOnce(log: Log, live: set<int>, i: nat)
    requires WellFormed(log) && i <= |log.entries|
    ensures Once(log, live, Walk(log, live, i))
    decreases |log.entries| - i
  {
    if i < |log.entries| {
      var id := log.entries[i].id;
      var k := FirstEdit(log.edits, id);
      if Survives(log, i) && id in live && k < |log.edits| {
        var targets := log.edits[k].targetIds;
        var fewer, next := live - (set t | t in targets), SkipTo(log.entries, i, MaxOf(targets));
        ReplacedOnce(log, fewer, next);
        OnceAfterReplaced(log, live, fewer, k, Walk(log, fewer, next));
      } else {
        ReplacedOnce(log, live, i + 1);
        OnceAfterKept(log, live, i, Walk(log, live, i + 1));
      }
    }
  }

  /** Entry `j` is covered by an applied amendment: it lies at or below its highest target. */
  ghost predicate Covered(log: Log, pieces: seq<Piece>, j: nat)
    requires WellFormed(log) && j < |log.entries|
  {
    exists k :: 0 <= k < |log.edits| && Replaced(k) in pieces && log.entries[j].id <= MaxOf(log.edits[k].targetIds)
  }

  /** Every original dropped is an edit record, redacted, or covered by an applied amendment. */
  lemma {:induction false} DroppedForAReason(log: Log, live: set<int>, i: nat, j: nat)
    requires WellFormed(log) && i <= j < |log.entries|
    ensures var w := Walk(log, live, i);
            Kept(j) in w || !Survives(log, j) || Covered(log, w, j)
    decreases |log.entries| - i
  {
    var w := Walk(log, live, i);
    var id := log.entries[i].id;
    var k := FirstEdit(log.edits, id);
    if Survives(log, i) && id in live && k < |log.edits| {
      var targets := log.edits[k].targetIds;
      var s := SkipTo(log.entries, i, MaxOf(targets));
      assert w[0] == Replaced(k);
      if s <= j {
        DroppedForAReason(log, live - (set t | t in targets), s, j);
        assert w[1..] == Walk(log, live - (set t | t in targets), s);
        assert forall p :: p in w[1..] ==> p in w;
      }
    } else if i < j {
      DroppedForAReason(log, live, i + 1, j);
      assert forall p :: p in Walk(log, live, i + 1) ==> p in w;
    } else if Survives(log, i) {
      assert w[0] == Kept(i);
    }
  }

  // ------------------------------------------------ separated amendments

  predicate IdsIncrease(entries: seq<Entry>) {
    forall i, j :: 0 <= i < j < |entries| ==> entries[i].id < entries[j].id
  }

  /** The id spans of any two amendments are disjoint. */
  predicate SpansDisjoint(edits: seq<Edit>)
    requires forall k :: 0 <= k < |edits| ==> edits[k].targetIds != []
  {
    forall k, l :: 0 <= k < l < |edits| ==>
      || MaxOf(edits[k].targetIds) < MinOf(edits[l].targetIds)
      || MaxOf(edits[l].targetIds) < MinOf(edits[k].targetIds)
  }

  /** `f` is the first surviving entry that amendment `k` targets. */
  ghost predicate FirstTarget(log: Log, k: nat, f: nat) {
    && k < |log.edits| && f < |log.entries|
    && Survives(log, f) && log.entries[f].id in log.edits[k].targetIds
    && forall j :: 0 <= j < f && Survives(log, j) ==> log.entries[j].id !in log.edits[k].targetIds
  }

  /** Amendment `k` replaces entry `i`: `i` lies between its first surviving target and its highest target. */
  ghost predicate Replaces(log: Log, k: nat, i: nat)
    requires WellFormed(log) && i < |log.entries|
  {
    exists f :: 0 <= f <= i && FirstTarget(log, k, f) && log.entries[i].id <= MaxOf(log.edits[k].targetIds)
  }

  /** What the view shows in place of entry `i`. */
  ghost function ShownAt(log: Log, i: nat): seq<Piece>
    requires WellFormed(log) && i < |log.entries|
  {
    if !Survives(log, i) then []
    else if exists k: nat :: Replaces(log, k, i) then
      var k: nat :| Replaces(log, k, i);
      if FirstTarget(log, k, i) then [Replaced(k)] else []
    else [Kept(i)]
  }

  /** The declarative view: entry by entry, in order. */
  ghost function ViewFrom(log: Log, i: nat): seq<Piece>
    requires WellFormed(log) && i <= |log.entries|
    decreases |log.entries| - i
  {
    if i == |log.entries| then [] else ShownAt(log, i) + ViewFrom(log, i + 1)
  }

  /** `k` has been reached before position `i`. */
  ghost predicate Reached(log: Log, k: nat, i: nat) {
    exists f :: 0 <= f < i && FirstTarget(log, k, f)
  }

  /** The loop invariant: reached amendments are behind us, the others still wait. */
  ghost predicate InStep(log: Log, live: set<int>, i: nat)
    requires WellFormed(log) && i <= |log.entries|
  {
    forall k: nat :: k < |log.edits| ==>
      if Reached(log, k, i)
      then forall j :: i <= j < |log.entries| ==> log.entries[j].id > MaxOf(log.edits[k].targetIds)
      else forall t :: t in log.edits[k].targetIds ==> t in live
  }

  /** A surviving target has a first surviving target at or before it. */
  lemma {:induction false} FirstTargetExists(log: Log, k: nat, i: nat) returns (f: nat)
    requires k < |log.edits| && i < |log.entries|
    requires Survives(log, i) && log.entries[i].id in log.edits[k].targetIds
    ensures f <= i && FirstTarget(log, k, f)
  {
    if j: nat :| j < i && Survives(log, j) && log.entries[j].id in log.edits[k].targetIds {
      f := FirstTargetExists(log, k, j);
    } else {
      f := i;
    }
  }

  /** With disjoint spans at most one amendment replaces an entry. */
  lemma ReplacedByOne(log: Log, k: nat, l: nat, i: nat)
    requires WellFormed(log) && IdsIncrease(log.entries) && SpansDisjoint(log.edits) && i < |log.entries|
    requires Replaces(log, k, i) && Replaces(log, l, i)
    ensures k == l
  {
    var f :| 0 <= f <= i && FirstTarget(log, k, f);
    var g :| 0 <= g <= i && FirstTarget(log, l, g);
    assert MinOf(log.edits[k].targetIds) <= log.entries[f].id <= log.entries[i].id;
    assert MinOf(log.edits[l].targetIds) <= log.entries[g].id <= log.entries[i].id;
  }

  ghost predicate Separated(log: Log) {
    WellFormed(log) && IdsIncrease(log.entries) && SpansDisjoint(log.edits)
  }

  /** An entry no waiting amendment targets is shown as it is. */
  lemma KeptHere(log: Log, live: set<int>, i: nat)
    requires Separated(log) && i < |log.entries| && Survives(log, i) && InStep(log, live, i)
    requires log.entries[i].id !in live || FirstEdit(log.edits, log.entries[i].id) == |log.edits|
    ensures ShownAt(log, i) == [Kept(i)]
    ensures InStep(log, live, i + 1)
  {
    forall k: nat, f: nat | f <= i && FirstTarget(log, k, f)
      ensures log.entries[i].id > MaxOf(log.edits[k].targetIds)
    {
      assert f < i ==> Reached(log, k, i);
      var reached := Reached(log, k, i);
    }
    StillInStep(log, live, i);
  }

  lemma StillInStep(log: Log, live: set<int>, i: nat)
    requires Separated(log) && i < |log.entries| && InStep(log, live, i)
    requires forall k: nat :: !FirstTarget(log, k, i)
    ensures InStep(log, live, i + 1)
  {
    forall k: nat | k < |log.edits| ensures Reached(log, k, i + 1) <==> Reached(log, k, i) {
      if Reached(log, k, i + 1) {
        var f :| 0 <= f < i + 1 && FirstTarget(log, k, f);
        assert f < i;
      }
    }
  }

  /** An entry a waiting amendment targets is that amendment's first surviving target. */
  lemma ReplacedHere(log: Log, live: set<int>, i: nat, k: nat)
    requires Separated(log) && i < |log.entries| && Survives(log, i) && InStep(log, live, i)
    requires k < |log.edits| && log.entries[i].id in log.edits[k].targetIds
    ensures FirstTarget(log, k, i) && ShownAt(log, i) == [Replaced(k)]
  {
    var f := FirstTargetExists(log, k, i);
    assert f < i ==> Reached(log, k, i);
    assert Replaces(log, k, i);
    forall l: nat | Replaces(log, l, i) ensures l == k {
      ReplacedByOne(log, k, l, i);
    }
  }

  lemma CoveredShowsNothing(log: Log, k: nat, i: nat, a: nat)
    requires Separated(log) && FirstTarget(log, k, i) && i < a < |log.entries|
    requires log.entries[a].id <= MaxOf(log.edits[k].targetIds)
    ensures ShownAt(log, a) == []
  {
    assert Replaces(log, k, a);
    forall l: nat | Replaces(log, l, a) ensures l == k {
      ReplacedByOne(log, k, l, a);
    }
    assert !FirstTarget(log, k, a);
  }

  /** Between an amendment's first surviving target and its highest target nothing else is shown. */
  lemma {:induction false} SpanShowsNothing(log: Log, k: nat, i: nat, a: nat, s: nat)
    requires Separated(log) && FirstTarget(log, k, i) && i < a <= s <= |log.entries|
    requires forall j :: a <= j < s ==> log.entries[j].id <= MaxOf(log.edits[k].targetIds)
    ensures ViewFrom(log, a) == ViewFrom(log, s)
    decreases s - a
  {
    if a < s {
      CoveredShowsNothing(log, k, i, a);
      SpanShowsNothing(log, k, i, a + 1, s);
    }
  }

  lemma SharedIdSameEdit(log: Log, k: nat, l: nat, id: int)
    requires WellFormed(log) && SpansDisjoint(log.edits) && k < |log.edits| && l < |log.edits|
    requires id in log.edits[l].targetIds
    requires MinOf(log.edits[k].targetIds) <= id <= MaxOf(log.edits[k].targetIds)
    ensures k == l
  {
    assert MinOf(log.edits[l].targetIds) <= id <= MaxOf(log.edits[l].targetIds);
  }

  lemma InStepAfterSpan(log: Log, live: set<int>, i: nat, k: nat, s: nat)
    requires Separated(log) && FirstTarget(log, k, i) && i < s <= |log.entries| && InStep(log, live, i)
    requires forall j :: i <= j < s ==> log.entries[j].id <= MaxOf(log.edits[k].targetIds)
    requires s < |log.entries| ==> log.entries[s].id > MaxOf(log.edits[k].targetIds)
    ensures InStep(log, live - (set t | t in log.edits[k].targetIds), s)
  {
    var targets := log.edits[k].targetIds;
    forall l: nat | l < |log.edits|
      ensures if Reached(log, l, s)
              then forall j :: s <= j < |log.entries| ==> log.entries[j].id > MaxOf(log.edits[l].targetIds)
              else forall t :: t in log.edits[l].targetIds ==> t in live && t !in targets
    {
      if Reached(log, l, s) {
        var f :| 0 <= f < s && FirstTarget(log, l, f);
        if f < i {
          assert Reached(log, l, i);
        } else {
          SharedIdSameEdit(log, k, l, log.entries[f].id);
        }
      } else {
        assert Reached(log, k, s);
        assert Reached(log, l, i) ==> Reached(log, l, s);
        forall t | t in log.edits[l].targetIds ensures t !in targets {
          if t in targets {
            SharedIdSameEdit(log, k, l, t);
          }
        }
      }
    }
  }

  /** The edit loop computes the declarative view. */
  lemma {:induction false} WalkIsView(log: Log, live: set<int>, i: nat)
    requires Separated(log) && i <= |log.entries| && InStep(log, live, i)
    ensures Walk(log, live, i) == ViewFrom(log, i)
    decreases |log.entries| - i
  {
    if i < |log.entries| {
      var id := log.entries[i].id;
      var k := FirstEdit(log.edits, id);
      if !Survives(log, i) {
        StillInStep(log, live, i);
        WalkIsView(log, live, i + 1);
      } else if id in live && k < |log.edits| {
        ReplacedHere(log, live, i, k);
        var targets := log.edits[k].targetIds;
        var s := SkipTo(log.entries, i, MaxOf(targets));
        SpanShowsNothing(log, k, i, i + 1, s);
        InStepAfterSpan(log, live, i, k, s);
        WalkIsView(log, live - (set t | t in targets), s);
      } else {
        KeptHere(log, live, i);
        WalkIsView(log, live, i + 1);
      }
    }
  }

  lemma {:induction false} TargetsAreAll(edits: seq<Edit>, k: nat, t: int)
    requires k < |edits| && t in edits[k].targetIds
    ensures t in Targets(edits)
  {
    if k < |edits| - 1 {
      TargetsAreAll(edits[..|edits| - 1], k, t);
    }
  }

  /**
   * For a log with increasing ids and amendments whose spans are disjoint, `applyEdits`
   * renders the declarative view.
   */
  lemma ApplyEditsIsView(log: Log)
    requires Separated(log)
    ensures Walk(log, Targets(log.edits), 0) == ViewFrom(log, 0)
  {
    forall k: nat, t | k < |log.edits| && t in log.edits[k].targetIds ensures t in Targets(log.edits) {
      TargetsAreAll(log.edits, k, t);
    }
    WalkIsView(log, Targets(log.edits), 0);
  }

  // ---------------------------------------------------- contiguous ranges

  predicate Contiguous(ids: seq<int>) {
    ids != [] && forall id :: MinOf(ids) <= id <= MaxOf(ids) ==> id in ids
  }

  /** The ranges are pairwise disjoint and each is contiguous. */
  predicate DisjointRanges(edits: seq<Edit>) {
    && (forall k :: 0 <= k < |edits| ==> Contiguous(edits[k].targetIds))
    && (forall k, l, id :: 0 <= k < l < |edits| && id in edits[k].targetIds ==> id !in edits[l].targetIds)
  }

  /** The view of contiguous amendments, target by target. */
  ghost function RangeShownAt(log: Log, i: nat): seq<Piece>
    requires i < |log.entries|
  {
    var k := FirstEdit(log.edits, log.entries[i].id);
    if !Survives(log, i) then []
    else if k == |log.edits| then [Kept(i)]
    else if FirstTarget(log, k, i) then [Replaced(k)]
    else []
  }

  lemma RangesAreSpans(edits: seq<Edit>)
    requires DisjointRanges(edits)
    ensures SpansDisjoint(edits)
  {
    forall k, l | 0 <= k < l < |edits|
      ensures || MaxOf(edits[k].targetIds) < MinOf(edits[l].targetIds)
              || MaxOf(edits[l].targetIds) < MinOf(edits[k].targetIds)
    {
      var a, b := MinOf(edits[k].targetIds), MinOf(edits[l].targetIds);
      var later := if a < b then b else a;
      assert later in edits[k].targetIds ==> later !in edits[l].targetIds;
    }
  }

  /**
   * With disjoint contiguous ranges, the view drops edit records and redacted entries,
   * puts each replacement at the first surviving target of its range, drops the other
   * targets, and keeps everything else in order.
   */
  lemma RangeView(log: Log, i: nat)
    requires IdsIncrease(log.entries) && DisjointRanges(log.edits) && i < |log.entries|
    ensures Separated(log) && ShownAt(log, i) == RangeShownAt(log, i)
  {
    RangesAreSpans(log.edits);
    var id := log.entries[i].id;
    var k := FirstEdit(log.edits, id);
    forall l: nat | Replaces(log, l, i) ensures l == k && k < |log.edits| {
      var f :| 0 <= f <= i && FirstTarget(log, l, f) && id <= MaxOf(log.edits[l].targetIds);
      assert MinOf(log.edits[l].targetIds) <= log.entries[f].id <= id;
      assert id in log.edits[l].targetIds;
      assert k <= l;
    }
    if Survives(log, i) && k < |log.edits| {
      var f := FirstTargetExists(log, k, i);
      assert Replaces(log, k, i);
    }
  }

  ghost function RangeViewFrom(log: Log, i: nat): seq<Piece>
    requires i <= |log.entries|
    decreases |log.entries| - i
  {
    if i == |log.entries| then [] else RangeShownAt(log, i) + RangeViewFrom(log, i + 1)
  }

  lemma {:induction false} RangeViewIsView(log: Log, i: nat)
    requires IdsIncrease(log.entries) && DisjointRanges(log.edits) && i <= |log.entries|
    ensures Separated(log) && ViewFrom(log, i) == RangeViewFrom(log, i)
    decreases |log.entries| - i
  {
    RangesAreSpans(log.edits);
    if i < |log.entries| {
      RangeView(log, i);
      RangeViewIsView(log, i + 1);
    }
  }

  /** `applyEdits` on increasing ids and disjoint contiguous ranges, in one statement. */
  lemma ApplyEditsIsRangeView(entries: seq<Entry>)
    requires IdsIncrease(entries) && DisjointRanges(Edits(entries))
    ensures var log := LogOf(entries);
            WellFormed(log) && Walk(log, Targets(log.edits), 0) == RangeViewFrom(log, 0)
  {
    var log := LogOf(entries);
    RangeViewIsView(log, 0);
    ApplyEditsIsView(log);
  }

  // ---------------------------------------------- the view, entry by entry

  /** Entry `a` is an amendment with targets and a replacement. */
  ghost predicate Effective(entries: seq<Entry>, a: nat) {
    && a < |entries| && entries[a].kind.Amendment?
    && entries[a].kind.targetIds != [] && entries[a].kind.replacement != []
  }

  /** Entry `a` is an effective amendment of `id`. */
  ghost predicate Amends(entries: seq<Entry>, a: nat, id: int) {
    Effective(entries, a) && id in entries[a].kind.targetIds
  }

  /** Some redaction in the list targets `id`; 0 is no target. */
  ghost predicate RedactedIn(entries: seq<Entry>, id: int) {
    id != 0 && exists e :: e in entries && e.kind == Redaction(id)
  }

  ghost predicate HasEffect(entries: seq<Entry>) {
    (exists id :: RedactedIn(entries, id)) || (exists a: nat :: Effective(entries, a))
  }

  /** Ids increase, or nothing is amended and their order does not matter. */
  ghost predicate InOrderOrPlain(entries: seq<Entry>) {
    IdsIncrease(entries) || forall a: nat :: !Effective(entries, a)
  }

  /** Entry `i` is an edit record or redacted. */
  ghost predicate Hidden(entries: seq<Entry>, i: nat)
    requires i < |entries|
  {
    entries[i].kind.Redaction? || entries[i].kind.Amendment? || RedactedIn(entries, entries[i].id)
  }

  /** Entry `i` is the first entry not hidden that amendment `a` targets. */
  ghost predicate FirstShown(entries: seq<Entry>, a: nat, i: nat)
    requires i < |entries|
  {
    && !Hidden(entries, i) && Amends(entries, a, entries[i].id)
    && forall j :: 0 <= j < i && Amends(entries, a, entries[j].id) ==> Hidden(entries, j)
  }

  /** Each effective amendment targets a contiguous range, and no two of them share a target. */
  ghost predicate Ranges(entries: seq<Entry>) {
    && (forall a: nat :: Effective(entries, a) ==> Contiguous(entries[a].kind.targetIds))
    && (forall a: nat, b: nat, id :: Amends(entries, a, id) && Amends(entries, b, id) ==> a == b)
  }

  /**
   * What stands in the view for entry `i`: nothing if it is hidden, the entry itself if nothing
   * amends it, and else the whole replacement if it is the first shown target, or nothing.
   */
  ghost predicate StandsFor(entries: seq<Entry>, i: nat, block: seq<Entry>)
    requires i < |entries|
  {
    if Hidden(entries, i) then block == []
    else
      && ((forall a: nat :: !Amends(entries, a, entries[i].id)) ==> block == [entries[i]])
      && forall a: nat :: Amends(entries, a, entries[i].id) ==>
           block == if FirstShown(entries, a, i) then entries[a].kind.replacement else []
  }

  /** Between offsets `j` and `j + 1` stands what stands for entry `i + j`. */
  ghost predicate BlockAt(entries: seq<Entry>, i: nat, result: seq<Entry>, at: seq<nat>, j: nat)
    requires i + j < |entries| && j + 1 < |at|
  {
    at[j] <= at[j + 1] <= |result| && StandsFor(entries, i + j, result[at[j]..at[j + 1]])
  }

  /** From entry `i` on, `result` is cut at the offsets `at` into what stands for each entry, in order. */
  ghost predicate ShowsFrom(entries: seq<Entry>, i: nat, result: seq<Entry>, at: seq<nat>)
    requires i <= |entries|
  {
    && |at| == |entries| - i + 1 && at[0] == 0 && at[|entries| - i] == |result|
    && forall j :: 0 <= j < |entries| - i ==> BlockAt(entries, i, result, at, j)
  }

  ghost predicate Shows(entries: seq<Entry>, result: seq<Entry>, at: seq<nat>) {
    ShowsFrom(entries, 0, result, at)
  }

  lemma RedactedIsIn(entries: seq<Entry>, id: int)
    ensures id in Redacted(entries) <==> RedactedIn(entries, id)
  {
    if id in Redacted(entries) {
      var e :| e in entries && RedactsSomething(e) && e.kind.targetId == id;
      assert e.kind == Redaction(id);
    }
  }

  /** Amendment `edit` was collected from entry `a`. */
  ghost predicate ComesFrom(entries: seq<Entry>, edit: Edit, a: nat) {
    && Effective(entries, a)
    && edit.targetIds == entries[a].kind.targetIds && edit.replacement == entries[a].kind.replacement
  }

  /** `source[k]` is the position of the entry that amendment `k` was collected from. */
  ghost predicate Sources(entries: seq<Entry>, source: seq<nat>) {
    && |source| == |Edits(entries)|
    && (forall k :: 0 <= k < |source| ==> ComesFrom(entries, Edits(entries)[k], source[k]))
    && (forall k, l :: 0 <= k < l < |source| ==> source[k] < source[l])
    && (forall a: nat :: Effective(entries, a) ==> a in source)
  }

  /** The collected amendments are the effective ones of the list, in order. */
  lemma {:induction false} EditsAre(entries: seq<Entry>) returns (source: seq<nat>)
    ensures Sources(entries, source)
  {
    source := [];
    if entries != [] {
      var n := |entries| - 1;
      source := EditsAre(entries[..n]);
      MoreSources(entries, source);
      source := if AmendsSomething(entries[n]) then source + [n] else source;
    }
  }

  lemma MoreSources(entries: seq<Entry>, source: seq<nat>)
    requires entries != [] && Sources(entries[..|entries| - 1], source)
    ensures var n := |entries| - 1;
            Sources(entries, if AmendsSomething(entries[n]) then source + [n] else source)
  {
    var n := |entries| - 1;
    var earlier, last := entries[..n], entries[n];
    var source' := if AmendsSomething(last) then source + [n] else source;
    var edits, edits' := Edits(earlier), Edits(entries);
    assert edits' == edits + if AmendsSomething(last) then [Edit(last.kind.targetIds, last.kind.replacement)] else [];
    forall k | 0 <= k < |source'| ensures ComesFrom(entries, edits'[k], source'[k]) {
      assert k < |source| ==> ComesFrom(earlier, edits[k], source[k]);
    }
    forall k, l | 0 <= k < l < |source'| ensures source'[k] < source'[l] {
      assert ComesFrom(earlier, edits[k], source[k]);
    }
    forall a: nat | Effective(entries, a) ensures a in source' {
      assert a < n ==> Effective(earlier, a);
    }
  }

  lemma EffectIsFound(entries: seq<Entry>)
    ensures HasEffect(entries) <==> Redacted(entries) != {} || Edits(entries) != []
  {
    var source := EditsAre(entries);
    if id :| id in Redacted(entries) {
      RedactedIsIn(entries, id);
    }
    if id :| RedactedIn(entries, id) {
      RedactedIsIn(entries, id);
    }
    if Edits(entries) != [] {
      assert Effective(entries, source[0]);
    }
  }

  lemma RangesAreDisjoint(entries: seq<Entry>, source: seq<nat>)
    requires Ranges(entries) && Sources(entries, source)
    ensures DisjointRanges(Edits(entries))
  {
    var edits := Edits(entries);
    forall k, l, id | 0 <= k < l < |edits| && id in edits[k].targetIds ensures id !in edits[l].targetIds {
      assert Amends(entries, source[k], id);
      assert id in edits[l].targetIds ==> Amends(entries, source[l], id);
    }
  }

  /** Without amendments the loop shows what survives, whatever the ids are. */
  lemma {:induction false} WalkWithoutEdits(log: Log, live: set<int>, i: nat)
    requires log.edits == [] && i <= |log.entries|
    ensures WellFormed(log) && Walk(log, live, i) == RangeViewFrom(log, i)
    decreases |log.entries| - i
  {
    if i < |log.entries| {
      WalkWithoutEdits(log, live, i + 1);
    }
  }

  lemma SurvivesIsShown(entries: seq<Entry>, i: nat)
    requires i < |entries|
    ensures Survives(LogOf(entries), i) <==> !Hidden(entries, i)
  {
    RedactedIsIn(entries, entries[i].id);
  }

  lemma FirstTargetIsShown(entries: seq<Entry>, source: seq<nat>, k: nat, i: nat)
    requires Sources(entries, source) && k < |source| && i < |entries|
    ensures FirstTarget(LogOf(entries), k, i) <==> FirstShown(entries, source[k], i)
  {
    var log := LogOf(entries);
    forall j | 0 <= j <= i
      ensures Survives(log, j) <==> !Hidden(entries, j)
      ensures log.entries[j].id in log.edits[k].targetIds <==> Amends(entries, source[k], entries[j].id)
    {
      SurvivesIsShown(entries, j);
    }
  }

  /** The piece the view has for entry `i` renders to what stands for it. */
  lemma PieceStandsFor(entries: seq<Entry>, source: seq<nat>, i: nat)
    requires Ranges(entries) && Sources(entries, source) && i < |entries|
    ensures StandsFor(entries, i, Render(LogOf(entries), RangeShownAt(LogOf(entries), i)))
  {
    var log, id := LogOf(entries), entries[i].id;
    var k := FirstEdit(log.edits, id);
    SurvivesIsShown(entries, i);
    RenderPiece(log, Kept(i));
    if k < |log.edits| {
      assert Amends(entries, source[k], id);
      FirstTargetIsShown(entries, source, k, i);
      RenderPiece(log, Replaced(k));
    }
    forall a: nat | Amends(entries, a, id) ensures k < |log.edits| && a == source[k] {
      var l :| 0 <= l < |source| && source[l] == a;
      assert id in log.edits[l].targetIds;
    }
  }

  lemma RenderPiece(log: Log, p: Piece)
    ensures Render(log, [p]) == Content(log, p)
  {
    assert [p][1..] == [];
  }

  lemma {:induction false} RenderAppend(log: Log, a: seq<Piece>, b: seq<Piece>)
    ensures Render(log, a + b) == Render(log, a) + Render(log, b)
  {
    if a == [] {
      assert a + b == b;
    } else {
      assert (a + b)[1..] == a[1..] + b;
      RenderAppend(log, a[1..], b);
    }
  }

  function Shifted(at: seq<nat>, width: nat): seq<nat> {
    [0] + seq(|at|, j requires 0 <= j < |at| => at[j] + width)
  }

  lemma SliceAfter(block: seq<Entry>, rest: seq<Entry>, x: nat, y: nat)
    requires x <= y <= |rest|
    ensures (block + rest)[x + |block|..y + |block|] == rest[x..y]
  {
  }

  lemma PrependBlock(entries: seq<Entry>, i: nat, block: seq<Entry>, rest: seq<Entry>, at: seq<nat>)
    requires i < |entries| && StandsFor(entries, i, block) && ShowsFrom(entries, i + 1, rest, at)
    ensures ShowsFrom(entries, i, block + rest, Shifted(at, |block|))
  {
    var result, at' := block + rest, Shifted(at, |block|);
    forall j | 0 <= j < |entries| - i ensures BlockAt(entries, i, result, at', j) {
      if j == 0 {
        assert result[0..|block|] == block;
      } else {
        assert BlockAt(entries, i + 1, rest, at, j - 1);
        SliceAfter(block, rest, at[j - 1], at[j - 1 + 1]);
        assert i + 1 + (j - 1) == i + j;
      }
    }
  }

  lemma OffsetsStep(entries: seq<Entry>, source: seq<nat>, i: nat, at: seq<nat>) returns (at': seq<nat>)
    requires Ranges(entries) && Sources(entries, source) && i < |entries|
    requires ShowsFrom(entries, i + 1, Render(LogOf(entries), RangeViewFrom(LogOf(entries), i + 1)), at)
    ensures ShowsFrom(entries, i, Render(LogOf(entries), RangeViewFrom(LogOf(entries), i)), at')
  {
    var log := LogOf(entries);
    PieceStandsFor(entries, source, i);
    RenderAppend(log, RangeShownAt(log, i), RangeViewFrom(log, i + 1));
    var block := Render(log, RangeShownAt(log, i));
    PrependBlock(entries, i, block, Render(log, RangeViewFrom(log, i + 1)), at);
    at' := Shifted(at, |block|);
  }

  lemma {:induction false} Offsets(entries: seq<Entry>, source: seq<nat>, i: nat) returns (at: seq<nat>)
    requires Ranges(entries) && Sources(entries, source) && i <= |entries|
    ensures ShowsFrom(entries, i, Render(LogOf(entries), RangeViewFrom(LogOf(entries), i)), at)
    decreases |entries| - i
  {
    if i == |entries| {
      at := [0];
    } else {
      at := Offsets(entries, source, i + 1);
      at := OffsetsStep(entries, source, i, at);
    }
  }

  /** What the edit loop renders is the view of the entries, in terms of the entries alone. */
  lemma ViewOfEntries(entries: seq<Entry>) returns (at: seq<nat>)
    requires Ranges(entries) && InOrderOrPlain(entries)
    ensures var log := LogOf(entries);
            WellFormed(log) && Shows(entries, Render(log, Walk(log, Targets(log.edits), 0)), at)
  {
    var source := EditsAre(entries);
    RangesAreDisjoint(entries, source);
    if IdsIncrease(entries) {
      ApplyEditsIsRangeView(entries);
    } else {
      assert source != [] ==> ComesFrom(entries, Edits(entries)[0], source[0]);
      WalkWithoutEdits(LogOf(entries), Targets(Edits(entries)), 0);
    }
    at := Offsets(entries, source, 0);
  }

  /** What `redact` and `amend` take: one id, a list of ids, or a `from..to` range. */
  datatype Target = One(id: int) | Many(ids: seq<int>) | Range(first: int, last: int)

  predicate Aims(target: Target, id: int) {
    match target
    case One(t) => id == t
    case Many(ids) => id in ids
    case Range(first, last) => first <= id <= last
  }

  /** Each id is above the one before it. */
  predicate Ascending(ids: seq<int>) {
    forall i, j :: 0 <= i < j < |ids| ==> ids[i] < ids[j]
  }

  /**
   * `resolveRange` lists exactly the ids the target aims at: a list as it was given, a range
   * in ascending order; a single id or a range that is not empty is contiguous.
   */
  method ResolveRange(target: Target) returns (ids: seq<int>)
    ensures forall id :: id in ids <==> Aims(target, id)
    ensures target.Many? ==> ids == target.ids
    ensures !target.Many? ==> Ascending(ids) && (ids != [] ==> Contiguous(ids))
  {
    match target
    case One(id) =>
      ids := [id];
    case Many(list) =>
      ids := list;
    case Range(first, last) =>
      ids := [];
      var i := first;
      while i <= last
        invariant first <= i && (if first <= last then i <= last + 1 else i == first)
        invariant |ids| == i - first
        invariant forall j :: 0 <= j < |ids| ==> ids[j] == first + j
        decreases last - i
      {
        ids := ids + [i];
        i := i + 1;
      }
      forall id | first <= id <= last ensures id in ids {
        assert ids[id - first] == id;
      }
  }
}
