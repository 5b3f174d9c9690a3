/**
 * The Postgres-backed tape store, for one tape. An append reads the counter, later updates
 * it under the row lock and inserts rows keyed by entry id. A reset deletes the rows it sees,
 * which takes no lock on the counter, and then zeroes the counter under its lock. Transactions
 * interleave statement by statement under read committed isolation.
 */
module TapeStore {
  import opened Basics

  datatype Draft = Draft(kind: string, payload: string)

  predicate IsAnchor(d: Draft) {
    d.kind == "anchor"
  }

  /** Where an append transaction stands. */
  datatype Tx =
    | Started(batch: seq<Draft>)
    | HasRead(batch: seq<Draft>, snapshot: nat)
    | Updated(batch: seq<Draft>, snapshot: nat)
    | Committed(batch: seq<Draft>, snapshot: nat)
    | RolledBack

  /**
   * Committed counter and rows, the append that holds the counter row's lock, all appends, and
   * for each reset in progress the ids of the rows its delete saw and that are still there.
   */
  datatype Store = Store(
    lastEntryId: nat,
    rows: map<nat, Draft>,
    lock: Option<nat>,
    txs: map<nat, Tx>,
    resets: map<nat, set<nat>>)

  datatype Action =
    | Begin(t: nat, batch: seq<Draft>)
    | ReadCounter(t: nat)
    | UpdateCounter(t: nat)
    | InsertAndCommit(t: nat)
    | Abort(t: nat)
    | DeleteRows(r: nat)
    | ZeroCounter(r: nat)
    | AbortReset(r: nat)

  function Empty(): Store {
    Store(0, map[], None, map[], map[])
  }

  /** Some reset in progress has deleted row `id`; an insert of that id waits for its end. */
  predicate UnderDeletion(s: Store, id: nat) {
    exists r :: r in s.resets && id in s.resets[r]
  }

  predicate Enabled(s: Store, a: Action) {
    match a
    case Begin(t, batch) => t !in s.txs && batch != []
    case ReadCounter(t) => t in s.txs && s.txs[t].Started?
    case UpdateCounter(t) => t in s.txs && s.txs[t].HasRead? && s.lock.None?
    case InsertAndCommit(t) =>
      && t in s.txs && s.txs[t].Updated? && s.lock == Some(t)
      && forall id :: id in NewRows(s.txs[t].snapshot, s.txs[t].batch) ==> !UnderDeletion(s, id)
    case Abort(t) => t in s.txs && !s.txs[t].Committed?
    case DeleteRows(r) => r !in s.resets
    case ZeroCounter(r) => r in s.resets && s.lock.None?
    case AbortReset(r) => r in s.resets
  }

  /** The rows an append adds: consecutive ids after the counter value it read. */
  function NewRows(snapshot: nat, batch: seq<Draft>): (rows: map<nat, Draft>)
    ensures forall id :: id in rows <==> snapshot < id <= snapshot + |batch|
    ensures forall id :: id in rows ==> rows[id] == batch[id - snapshot - 1]
  {
    if batch == [] then map[]
    else NewRows(snapshot, batch[..|batch| - 1])[snapshot + |batch| := batch[|batch| - 1]]
  }

  function Next(s: Store, a: Action): Store
    requires Enabled(s, a)
  {
    match a
    case Begin(t, batch) => s.(txs := s.txs[t := Started(batch)])
    case ReadCounter(t) => s.(txs := s.txs[t := HasRead(s.txs[t].batch, s.lastEntryId)])
    case UpdateCounter(t) => s.(txs := s.txs[t := Updated(s.txs[t].batch, s.txs[t].snapshot)], lock := Some(t))
    case InsertAndCommit(t) =>
      var tx := s.txs[t];
      var added := NewRows(tx.snapshot, tx.batch);
      if s.rows.Keys !! added.Keys then
        s.(lastEntryId := tx.snapshot + |tx.batch|, rows := s.rows + added, lock := None,
           txs := s.txs[t := Committed(tx.batch, tx.snapshot)])
      else s.(txs := s.txs[t := RolledBack], lock := None)
    case Abort(t) => s.(txs := s.txs[t := RolledBack], lock := if s.lock == Some(t) then None else s.lock)
    case DeleteRows(r) => s.(resets := s.resets[r := s.rows.Keys])
    case ZeroCounter(r) =>
      var gone := s.resets[r];
      s.(lastEntryId := 0, rows := s.rows - gone, resets := map q | q in s.resets && q != r :: s.resets[q] - gone)
    case AbortReset(r) => s.(resets := s.resets - {r})
  }

  /** Committed ids are exactly 1 up to the counter. */
  ghost predicate Contiguous(s: Store) {
    forall id: nat :: id in s.rows <==> 1 <= id <= s.lastEntryId
  }

  /** A transaction that has read the counter and not yet ended. */
  predicate InProgress(s: Store, t: nat) {
    t in s.txs && (s.txs[t].HasRead? || s.txs[t].Updated?)
  }

  ghost predicate Steps(s: Store, s': Store) {
    exists a :: Enabled(s, a) && s' == Next(s, a)
  }

  /** Any interleaving of append transactions and resets. */
  ghost predicate Run(trace: seq<Store>) {
    && trace != [] && trace[0] == Empty()
    && forall i :: 0 <= i < |trace| - 1 ==> Steps(trace[i], trace[i + 1])
  }

  /** No append is empty: the store returns early on an empty batch. */
  predicate BatchesOk(s: Store) {
    forall t :: t in s.txs && (s.txs[t].Started? || InProgress(s, t)) ==> s.txs[t].batch != []
  }

  /**
   * The exact condition: an append that ends keeps the ids contiguous iff the counter it
   * read is not above the committed one. A stale reader then collides and rolls back.
   */
  lemma InsertKeepsContiguous(s: Store, t: nat)
    requires Contiguous(s) && Enabled(s, InsertAndCommit(t)) && s.txs[t].batch != []
    ensures Contiguous(Next(s, InsertAndCommit(t))) <==> s.txs[t].snapshot <= s.lastEntryId
    ensures s.txs[t].snapshot < s.lastEntryId ==> Next(s, InsertAndCommit(t)).txs[t].RolledBack?
    ensures s.txs[t].snapshot == s.lastEntryId ==> Next(s, InsertAndCommit(t)).txs[t].Committed?
  {
    var tx := s.txs[t];
    var added := NewRows(tx.snapshot, tx.batch);
    var s' := Next(s, InsertAndCommit(t));
    if tx.snapshot < s.lastEntryId {
      assert tx.snapshot + 1 in s.rows && tx.snapshot + 1 in added;
    } else {
      assert s.rows.Keys !! added.Keys;
      assert tx.snapshot > s.lastEntryId ==> tx.snapshot !in s'.rows && 1 <= tx.snapshot <= s'.lastEntryId;
    }
  }

  /** The append that ends read a counter above the committed one, or the reset that ends leaves a row it never saw. */
  predicate CommitsGap(s: Store, a: Action)
    requires Enabled(s, a)
  {
    || (a.InsertAndCommit? && s.txs[a.t].snapshot > s.lastEntryId)
    || (a.ZeroCounter? && !(s.rows.Keys <= s.resets[a.r]))
  }

  lemma StepContiguous(s: Store, a: Action)
    requires Contiguous(s) && BatchesOk(s) && Enabled(s, a)
    ensures BatchesOk(Next(s, a))
    ensures Contiguous(Next(s, a)) <==> !CommitsGap(s, a)
  {
    if a.InsertAndCommit? {
      InsertKeepsContiguous(s, a.t);
    } else if a.ZeroCounter? {
      assert s.rows.Keys <= s.resets[a.r] <==> forall id :: id in s.rows ==> id !in Next(s, a).rows;
    }
  }

  ghost predicate GapStep(s: Store, s': Store) {
    exists a :: Enabled(s, a) && CommitsGap(s, a) && s' == Next(s, a)
  }

  ghost predicate ContiguousTo(trace: seq<Store>, n: nat) {
    forall j :: 0 <= j <= n < |trace| ==> Contiguous(trace[j])
  }

  ghost predicate NoGapTo(trace: seq<Store>, n: nat) {
    forall j :: 0 <= j < n < |trace| ==> !GapStep(trace[j], trace[j + 1])
  }

  lemma StepTaken(trace: seq<Store>, n: nat) returns (a: Action)
    requires Run(trace) && n + 1 < |trace|
    ensures Enabled(trace[n], a) && trace[n + 1] == Next(trace[n], a)
    ensures CommitsGap(trace[n], a) ==> GapStep(trace[n], trace[n + 1])
  {
    assert Steps(trace[n], trace[n + 1]);
    a :| Enabled(trace[n], a) && trace[n + 1] == Next(trace[n], a);
  }

  lemma {:induction false} RunBatches(trace: seq<Store>, n: nat)
    requires Run(trace) && n < |trace|
    ensures BatchesOk(trace[n])
  {
    if n > 0 {
      RunBatches(trace, n - 1);
      var a := StepTaken(trace, n - 1);
    }
  }

  /**
   * Under every interleaving of append and reset transactions, the committed ids have been
   * exactly 1..lastEntryId throughout iff no append ended that had read a counter above the
   * committed one, and no reset ended while a row was committed that its delete had not seen.
   */
  lemma {:induction false} IdsAreContiguous(trace: seq<Store>, n: nat)
    requires Run(trace) && n < |trace|
    ensures ContiguousTo(trace, n) <==> NoGapTo(trace, n)
  {
    if n > 0 {
      IdsAreContiguous(trace, n - 1);
      assert ContiguousTo(trace, n) <==> ContiguousTo(trace, n - 1) && Contiguous(trace[n]);
      assert NoGapTo(trace, n) <==> NoGapTo(trace, n - 1) && !GapStep(trace[n - 1], trace[n - 1 + 1]);
      if ContiguousTo(trace, n - 1) {
        RunBatches(trace, n - 1);
        LastStep(trace, n - 1);
      }
    }
  }

  lemma LastStep(trace: seq<Store>, n: nat)
    requires Run(trace) && n + 1 < |trace| && Contiguous(trace[n]) && BatchesOk(trace[n])
    ensures Contiguous(trace[n + 1]) <==> !GapStep(trace[n], trace[n + 1])
  {
    if GapStep(trace[n], trace[n + 1]) {
      var a :| Enabled(trace[n], a) && CommitsGap(trace[n], a) && trace[n + 1] == Next(trace[n], a);
      StepContiguous(trace[n], a);
    } else {
      var a := StepTaken(trace, n);
      StepContiguous(trace[n], a);
    }
  }

  /** An append and a reset are both in progress. */
  ghost predicate Overlapping(s: Store) {
    s.resets != map[] && exists t :: InProgress(s, t)
  }

  /** No counter read is above the committed one, and no reset has missed a committed row. */
  ghost predicate Calm(s: Store) {
    && Contiguous(s) && BatchesOk(s)
    && (forall t :: InProgress(s, t) ==> s.txs[t].snapshot <= s.lastEntryId)
    && (forall r :: r in s.resets ==> s.rows.Keys <= s.resets[r])
  }

  lemma CalmStep(s: Store, a: Action)
    requires Calm(s) && !Overlapping(s) && Enabled(s, a)
    ensures !CommitsGap(s, a) && Calm(Next(s, a))
  {
    StepContiguous(s, a);
    var s' := Next(s, a);
    if a.InsertAndCommit? {
      InsertKeepsContiguous(s, a.t);
      assert InProgress(s, a.t);
    }
    forall t | InProgress(s', t) ensures s'.txs[t].snapshot <= s'.lastEntryId {
      assert InProgress(s, t) || a == ReadCounter(t);
      assert a.ZeroCounter? ==> s.resets != map[];
    }
  }

  ghost predicate NoOverlapTo(trace: seq<Store>, n: nat) {
    forall j :: 0 <= j < n < |trace| ==> !Overlapping(trace[j])
  }

  lemma {:induction false} CalmUnlessOverlap(trace: seq<Store>, n: nat)
    requires Run(trace) && n < |trace| && NoOverlapTo(trace, n)
    ensures Calm(trace[n])
  {
    if n > 0 {
      CalmUnlessOverlap(trace, n - 1);
      var a := StepTaken(trace, n - 1);
      CalmStep(trace[n - 1], a);
    }
  }

  /** In every run in which no append is in progress while a reset is, the ids are 1..lastEntryId. */
  lemma ContiguousUnlessOverlap(trace: seq<Store>, n: nat)
    requires Run(trace) && n < |trace| && NoOverlapTo(trace, n)
    ensures ContiguousTo(trace, n) && NoGapTo(trace, n)
  {
    forall j | 0 <= j <= n ensures Contiguous(trace[j]) {
      CalmUnlessOverlap(trace, j);
    }
    IdsAreContiguous(trace, n);
  }

  /** A gap needs an append and a reset in progress at once, at its step or earlier. */
  lemma GapNeedsOverlap(trace: seq<Store>, n: nat)
    requires Run(trace) && n + 1 < |trace| && GapStep(trace[n], trace[n + 1])
    ensures exists j :: 0 <= j <= n && Overlapping(trace[j])
  {
    if NoOverlapTo(trace, n + 1) {
      ContiguousUnlessOverlap(trace, n + 1);
    }
  }

  // ------------------------------------------------ the store as a sequence

  /** The committed entries in id order. */
  ghost function Log(s: Store): (log: seq<Draft>)
    requires Contiguous(s)
    ensures |log| == s.lastEntryId && forall i :: 0 <= i < |log| ==> log[i] == s.rows[i + 1]
  {
    seq(s.lastEntryId, i requires 0 <= i < s.lastEntryId => s.rows[i + 1])
  }

  /**
   * Concurrent transactions refine an append-only sequence: a commit appends its whole
   * batch at the end, a reset that ends empties it, and no other step changes it.
   */
  lemma LogIsAppendOnly(s: Store, a: Action)
    requires Contiguous(s) && BatchesOk(s) && Enabled(s, a) && !CommitsGap(s, a)
    ensures Contiguous(Next(s, a))
    ensures var s' := Next(s, a);
            Log(s') == if a.ZeroCounter? then []
                       else if a.InsertAndCommit? && s'.txs[a.t].Committed? then Log(s) + s.txs[a.t].batch
                       else Log(s)
  {
    StepContiguous(s, a);
    if a.InsertAndCommit? {
      InsertKeepsContiguous(s, a.t);
    }
  }

  lemma Extend(trace: seq<Store>, a: Action) returns (longer: seq<Store>)
    requires Run(trace) && Enabled(trace[|trace| - 1], a)
    ensures Run(longer) && longer == trace + [Next(trace[|trace| - 1], a)]
  {
    longer := trace + [Next(trace[|trace| - 1], a)];
    assert Steps(longer[|trace| - 1], longer[|trace|]);
    forall i | 0 <= i < |longer| - 1 ensures Steps(longer[i], longer[i + 1]) {
      if i < |trace| - 1 {
        assert Steps(trace[i], trace[i + 1]);
      }
    }
  }

  /** A run in which one append has committed and a second has read the counter. */
  lemma OneCommittedOneReading(d: Draft) returns (trace: seq<Store>)
    ensures Run(trace) && |trace| == 7 && trace[0] == Empty()
    ensures trace[4] == Store(1, map[1 := d], None, map[1 := Committed([d], 0)], map[])
    ensures trace[6] == Store(1, map[1 := d], None, map[1 := Committed([d], 0), 2 := HasRead([d], 1)], map[])
  {
    trace := Extend([Empty()], Begin(1, [d]));
    trace := Extend(trace, ReadCounter(1));
    trace := Extend(trace, UpdateCounter(1));
    assert trace[3] == Store(0, map[], Some(1), map[1 := Updated([d], 0)], map[]);
    assert NewRows(0, [d]) == map[1 := d];
    trace := Extend(trace, InsertAndCommit(1));
    assert trace[4] == Store(1, map[1 := d], None, map[1 := Committed([d], 0)], map[]);
    trace := Extend(trace, Begin(2, [d]));
    trace := Extend(trace, ReadCounter(2));
  }

  /** A run in which a whole reset comes between the append's read and its update: id 2 is committed alone. */
  lemma ResetOverlapLeavesGap(d: Draft) returns (trace: seq<Store>)
    ensures Run(trace) && |trace| == 11
    ensures trace[10].lastEntryId == 2 && trace[10].rows == map[2 := d] && !Contiguous(trace[10])
  {
    trace := OneCommittedOneReading(d);
    trace := Extend(trace, DeleteRows(5));
    trace := Extend(trace, ZeroCounter(5));
    trace := Extend(trace, UpdateCounter(2));
    var s := trace[9];
    assert s.lastEntryId == 0 && s.rows == map[] && s.txs[2] == Updated([d], 1) && s.resets == map[];
    assert NewRows(1, [d]) == map[2 := d];
    trace := Extend(trace, InsertAndCommit(2));
    assert 1 !in trace[10].rows;
  }

  /** A run in which the append ends between the reset's two statements: its row outlives the reset. */
  lemma ResetMissesRow(d: Draft) returns (trace: seq<Store>)
    ensures Run(trace) && |trace| == 11
    ensures trace[10].lastEntryId == 0 && trace[10].rows == map[2 := d] && !Contiguous(trace[10])
  {
    trace := OneCommittedOneReading(d);
    trace := Extend(trace, UpdateCounter(2));
    trace := Extend(trace, DeleteRows(5));
    var s := trace[8];
    assert map[1 := d].Keys == {1};
    assert s.lastEntryId == 1 && s.rows == map[1 := d] && s.txs[2] == Updated([d], 1) && s.resets == map[5 := {1}];
    assert NewRows(1, [d]) == map[2 := d];
    trace := Extend(trace, InsertAndCommit(2));
    assert trace[9].rows == map[1 := d, 2 := d];
    trace := Extend(trace, ZeroCounter(5));
    assert 2 in trace[10].rows;
  }

  // ------------------------------------------------------------- tape info

  /** The id of the last anchor among the first `n` entries, by the query on the rows. */
  function LastAnchorId(log: seq<Draft>): (r: Option<nat>)
    ensures r.Some? ==> 1 <= r.value <= |log| && IsAnchor(log[r.value - 1])
    ensures forall i :: (if r.Some? then r.value else 0) <= i < |log| ==> !IsAnchor(log[i])
  {
    if log == [] then None
    else if IsAnchor(log[|log| - 1]) then Some(|log|)
    else LastAnchorId(log[..|log| - 1])
  }

  /** `entriesSinceLastAnchor` as `infoForTapeRecord` computes it from its two queries. */
  function EntriesSince(entries: nat, lastAnchorId: Option<nat>): int {
    if lastAnchorId.Some? then entries - lastAnchorId.value else entries
  }

  /** The number of entries after the last anchor, counted one by one from the end. */
  function CountSinceAnchor(log: seq<Draft>): nat {
    if log == [] || IsAnchor(log[|log| - 1]) then 0 else 1 + CountSinceAnchor(log[..|log| - 1])
  }

  /** With contiguous ids the subtraction is the true count. */
  lemma {:induction false} EntriesSinceIsCount(log: seq<Draft>)
    ensures EntriesSince(|log|, LastAnchorId(log)) == CountSinceAnchor(log)
  {
    if log != [] && !IsAnchor(log[|log| - 1]) {
      EntriesSinceIsCount(log[..|log| - 1]);
    }
  }

  function Ids(n: nat): (ids: set<nat>)
    ensures |ids| == n && forall id :: id in ids <==> 1 <= id <= n
  {
    if n == 0 then {} else Ids(n - 1) + {n}
  }

  lemma CountOfRows(s: Store)
    requires Contiguous(s)
    ensures |s.rows| == |Log(s)|
  {
    assert s.rows.Keys == Ids(s.lastEntryId);
  }

  /** `infoForTapeRecord` reports the true count since the last anchor in every state reached without a gap. */
  lemma InfoIsRight(trace: seq<Store>, n: nat)
    requires Run(trace) && n < |trace| && NoGapTo(trace, n)
    ensures Contiguous(trace[n])
    ensures EntriesSince(|trace[n].rows|, LastAnchorId(Log(trace[n]))) == CountSinceAnchor(Log(trace[n]))
  {
    IdsAreContiguous(trace, n);
    CountOfRows(trace[n]);
    EntriesSinceIsCount(Log(trace[n]));
  }

  /** What `infoForTapeRecord` reports when it counts in state `s` and looks for the last anchor in state `s'`. */
  ghost function Reported(s: Store, s': Store): int
    requires Contiguous(s')
  {
    EntriesSince(|s.rows|, LastAnchorId(Log(s')))
  }

  function AnchorOrZero(log: seq<Draft>): nat {
    if LastAnchorId(log).Some? then LastAnchorId(log).value else 0
  }

  /**
   * The two queries are separate statements. Counting in state `m` and looking for the anchor
   * in a later state `n`, resets in between included, reports the count of state `n` iff the
   * log is as long as it was, and the count of state `m` iff the last anchor is where it was.
   */
  lemma InfoAcrossTwoQueries(trace: seq<Store>, m: nat, n: nat)
    requires Run(trace) && m <= n < |trace| && NoGapTo(trace, n)
    ensures Contiguous(trace[m]) && Contiguous(trace[n])
    ensures var old', new' := Log(trace[m]), Log(trace[n]);
            && (Reported(trace[m], trace[n]) == CountSinceAnchor(new') <==> |old'| == |new'|)
            && (Reported(trace[m], trace[n]) == CountSinceAnchor(old') <==> AnchorOrZero(old') == AnchorOrZero(new'))
  {
    IdsAreContiguous(trace, n);
    CountOfRows(trace[m]);
    EntriesSinceIsCount(Log(trace[m]));
    EntriesSinceIsCount(Log(trace[n]));
  }

  ghost predicate NotReset(s: Store, s': Store) {
    exists a :: Enabled(s, a) && !a.ZeroCounter? && s' == Next(s, a)
  }

  lemma GrowStep(trace: seq<Store>, n: nat)
    requires Run(trace) && n + 1 < |trace| && NoGapTo(trace, n + 1) && NotReset(trace[n], trace[n + 1])
    ensures Contiguous(trace[n]) && Contiguous(trace[n + 1]) && Log(trace[n]) <= Log(trace[n + 1])
  {
    var a :| Enabled(trace[n], a) && !a.ZeroCounter? && trace[n + 1] == Next(trace[n], a);
    assert !GapStep(trace[n], trace[n + 1]);
    IdsAreContiguous(trace, n + 1);
    RunBatches(trace, n);
    LogIsAppendOnly(trace[n], a);
  }

  /** Unless a reset ends the log only grows at its end. */
  lemma {:induction false} LogGrows(trace: seq<Store>, m: nat, n: nat)
    requires Run(trace) && m <= n < |trace| && NoGapTo(trace, n)
    requires forall j :: m <= j < n ==> NotReset(trace[j], trace[j + 1])
    ensures Contiguous(trace[m]) && Contiguous(trace[n]) && Log(trace[m]) <= Log(trace[n])
    decreases n
  {
    if m < n {
      assert NoGapTo(trace, n - 1);
      LogGrows(trace, m, n - 1);
      var log := Log(trace[n - 1]);
      assert NotReset(trace[n - 1], trace[n - 1 + 1]);
      GrowStep(trace, n - 1);
      assert Log(trace[m]) <= log <= Log(trace[n]);
    } else {
      IdsAreContiguous(trace, n);
    }
  }

  /**
   * Without the end of a reset between the queries: right for the first moment iff no anchor was
   * appended in between, right for the second iff nothing was.
   */
  lemma InfoAcrossAppends(trace: seq<Store>, m: nat, n: nat)
    requires Run(trace) && m <= n < |trace| && NoGapTo(trace, n)
    requires forall j :: m <= j < n ==> NotReset(trace[j], trace[j + 1])
    ensures Contiguous(trace[m]) && Contiguous(trace[n]) && Log(trace[m]) <= Log(trace[n])
    ensures var log, more := Log(trace[m]), Log(trace[n])[|Log(trace[m])|..];
            && (Reported(trace[m], trace[n]) == CountSinceAnchor(log) <==>
                  forall i :: 0 <= i < |more| ==> !IsAnchor(more[i]))
            && (Reported(trace[m], trace[n]) == CountSinceAnchor(log + more) <==> more == [])
  {
    LogGrows(trace, m, n);
    InfoAcrossTwoQueries(trace, m, n);
    var log, more := Log(trace[m]), Log(trace[n])[|Log(trace[m])|..];
    assert Log(trace[n]) == log + more;
    if i :| 0 <= i < |more| && IsAnchor(more[i]) {
      LastAnchorAfter(log, more, i);
    } else {
      LastAnchorBefore(log, more);
    }
  }

  /** A run in which an anchor committed between the two queries makes the reported count negative. */
  lemma InfoCanBeNegative() returns (trace: seq<Store>)
    ensures Run(trace) && |trace| == 7 && Contiguous(trace[4]) && Reported(trace[0], trace[4]) == -1
  {
    var anchor := Draft("anchor", "handoff");
    trace := OneCommittedOneReading(anchor);
    assert Log(trace[4]) == [anchor];
  }

  lemma {:induction false} LastAnchorBefore(log: seq<Draft>, more: seq<Draft>)
    requires forall i :: 0 <= i < |more| ==> !IsAnchor(more[i])
    ensures LastAnchorId(log + more) == LastAnchorId(log)
    decreases |more|
  {
    if more == [] {
      assert log + more == log;
    } else {
      var n := |more| - 1;
      assert (log + more)[..|log| + n] == log + more[..n] && (log + more)[|log| + n] == more[n];
      LastAnchorBefore(log, more[..n]);
    }
  }

  lemma {:induction false} LastAnchorAfter(log: seq<Draft>, more: seq<Draft>, i: nat)
    requires i < |more| && IsAnchor(more[i])
    ensures LastAnchorId(log + more).Some? && LastAnchorId(log + more).value > |log|
    decreases |more|
  {
    var n := |more| - 1;
    assert (log + more)[..|log| + n] == log + more[..n] && (log + more)[|log| + n] == more[n];
    if !IsAnchor(more[n]) {
      LastAnchorAfter(log, more[..n], i);
    }
  }
}
