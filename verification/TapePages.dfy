/**
 * Pages of the store and pages of the cache: what the store's ordered offset/limit query
 * returns, and what a browser cache filled from it shows while the log grows.
 */
module TapePages {
  import opened TapeStore
  import TapeCache

  function EntryOf(id: nat, d: Draft): TapeCache.Entry {
    TapeCache.Entry(id, d.kind, d.payload)
  }

  /** The log as entries with ids 1, 2, 3. */
  function EntriesOf(log: seq<Draft>): (entries: seq<TapeCache.Entry>)
    ensures |entries| == |log| && forall i :: 0 <= i < |log| ==> entries[i] == EntryOf(i + 1, log[i])
  {
    seq(|log|, i requires 0 <= i < |log| => EntryOf(i + 1, log[i]))
  }

  /** The rows with ids up to `hi`, ordered by id. */
  function Ordered(rows: map<nat, Draft>, hi: nat): seq<TapeCache.Entry> {
    (if hi == 0 then [] else Ordered(rows, hi - 1)) + (if hi in rows then [EntryOf(hi, rows[hi])] else [])
  }

  /** `readPage`, for rows with ids up to `hi`: the ordered rows, cut by offset and limit. */
  function ReadPage(rows: map<nat, Draft>, hi: nat, offset: nat, limit: nat): seq<TapeCache.Entry> {
    var all := Ordered(rows, hi);
    all[TapeCache.Min(offset, |all|)..TapeCache.Min(offset + limit, |all|)]
  }

  /** The rows of a contiguous store, ordered by id, are its log. */
  lemma {:induction false} OrderedIsLog(s: Store, hi: nat)
    requires Contiguous(s)
    ensures Ordered(s.rows, hi) == EntriesOf(Log(s)[..if hi <= s.lastEntryId then hi else s.lastEntryId])
  {
    if hi > 0 {
      OrderedIsLog(s, hi - 1);
    }
  }

  /** In every state reached without a gap, the store's page is the page by position of its log. */
  lemma PageOfLog(trace: seq<Store>, n: nat, hi: nat, offset: nat, limit: nat)
    requires Run(trace) && n < |trace| && NoGapTo(trace, n) && trace[n].lastEntryId <= hi
    ensures Contiguous(trace[n])
    ensures ReadPage(trace[n].rows, hi, offset, limit) == TapeCache.StorePage(EntriesOf(Log(trace[n])), offset, limit)
  {
    IdsAreContiguous(trace, n);
    OrderedIsLog(trace[n], hi);
    assert Log(trace[n])[..trace[n].lastEntryId] == Log(trace[n]);
  }

  /** What is cached stays right while the log only grows, so a cache never has to be refreshed for appends. */
  lemma CacheSurvivesAppends(trace: seq<Store>, m: nat, n: nat, index: map<nat, TapeCache.Record>, tapeId: string)
    requires Run(trace) && m <= n < |trace| && NoGapTo(trace, n)
    requires forall j :: m <= j < n ==> NotReset(trace[j], trace[j + 1])
    requires Contiguous(trace[m]) && TapeCache.CachesLog(index, tapeId, EntriesOf(Log(trace[m])))
    ensures Contiguous(trace[n]) && TapeCache.CachesLog(index, tapeId, EntriesOf(Log(trace[n])))
  {
    LogGrows(trace, m, n);
  }

  /**
   * A page cached before or after any appends is the store's present page iff all its ids are
   * in the cache; otherwise it is that page without the missing entries.
   */
  lemma CachedPageIsStorePage(trace: seq<Store>, m: nat, n: nat, hi: nat, index: map<nat, TapeCache.Record>,
                              tapeId: string, offset: nat, limit: nat)
    requires Run(trace) && m <= n < |trace| && NoGapTo(trace, n) && trace[n].lastEntryId <= hi
    requires forall j :: m <= j < n ==> NotReset(trace[j], trace[j + 1])
    requires Contiguous(trace[m]) && TapeCache.CachesLog(index, tapeId, EntriesOf(Log(trace[m])))
    ensures var page := ReadPage(trace[n].rows, hi, offset, limit);
            && Contiguous(trace[n]) && TapeCache.CachesLog(index, tapeId, EntriesOf(Log(trace[n])))
            && page == TapeCache.StorePage(EntriesOf(Log(trace[n])), offset, limit)
            && (TapeCache.Cached(index, page) == page <==> forall e :: e in page ==> e.id in index)
  {
    CacheSurvivesAppends(trace, m, n, index, tapeId);
    PageOfLog(trace, n, hi, offset, limit);
    TapeCache.CachedAll(index, ReadPage(trace[n].rows, hi, offset, limit));
  }
}
