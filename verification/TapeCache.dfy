/**
 * The browser's cache of tape entries: an IndexedDB object store keyed by a text
 * made of tape id and entry id, read through an index on (tape id, entry id).
 */
module TapeCache {
  import opened Text

  const MAX_SAFE_INTEGER: nat := 9_007_199_254_740_991

  datatype Entry = Entry(id: nat, kind: string, payload: string)

  datatype Record = Record(tapeId: string, entryId: nat, entry: Entry)

  /** `entryKey`: the tape id, a colon and the entry id padded to twelve digits. */
  function EntryKey(tapeId: string, entryId: nat): string {
    tapeId + ":" + ZeroPad(Decimal(entryId), 12)
  }

  /** Different entries have different keys, so one put never replaces another entry. */
  lemma EntryKeyInjective(t: string, i: nat, t': string, i': nat)
    requires EntryKey(t, i) == EntryKey(t', i')
    ensures t == t' && i == i'
  {
    var p, p' := ZeroPad(Decimal(i), 12), ZeroPad(Decimal(i'), 12);
    DecimalDenotes(i);
    DecimalDenotes(i');
    PadDenotes(Decimal(i), 12);
    PadDenotes(Decimal(i'), 12);
    SameTail(t, p, t', p');
  }

  /** The text after the last colon is determined when it holds no colon. */
  lemma SameTail(a: string, p: string, b: string, q: string)
    requires a + ":" + p == b + ":" + q && ':' !in p && ':' !in q
    ensures a == b && p == q
  {
    var s, s' := a + ":" + p, b + ":" + q;
    assert s[|a|] == ':' && s'[|b|] == ':';
    forall k | |a| < k < |s| ensures s[k] != ':' {
      assert s[k] == p[k - |a| - 1];
    }
    forall k | |b| < k < |s'| ensures s'[k] != ':' {
      assert s'[k] == q[k - |b| - 1];
    }
    assert s[..|a|] == a && s[|a| + 1..] == p;
    assert s'[..|b|] == b && s'[|b| + 1..] == q;
  }

  /** Every record sits under its own key. */
  ghost predicate WellKeyed(records: map<string, Record>) {
    forall k :: k in records ==> k == EntryKey(records[k].tapeId, records[k].entryId)
  }

  /** The part of the index on (tape id, entry id) that belongs to one tape. */
  function Index(records: map<string, Record>, tapeId: string): map<nat, Record>
    requires WellKeyed(records)
  {
    map k | k in records && records[k].tapeId == tapeId :: records[k].entryId := records[k]
  }

  lemma IndexLookup(records: map<string, Record>, tapeId: string, id: nat)
    requires WellKeyed(records)
    ensures id in Index(records, tapeId) <==>
              EntryKey(tapeId, id) in records && records[EntryKey(tapeId, id)].tapeId == tapeId
              && records[EntryKey(tapeId, id)].entryId == id
    ensures id in Index(records, tapeId) ==> Index(records, tapeId)[id] == records[EntryKey(tapeId, id)]
  {
    if id in Index(records, tapeId) {
      var k :| k in records && records[k].tapeId == tapeId && records[k].entryId == id;
    }
  }

  /** One put changes one index entry of one tape. */
  lemma PutOne(records: map<string, Record>, r: Record)
    requires WellKeyed(records)
    ensures var records' := records[EntryKey(r.tapeId, r.entryId) := r];
            && WellKeyed(records')
            && Index(records', r.tapeId) == Index(records, r.tapeId)[r.entryId := r]
            && forall t :: t != r.tapeId ==> Index(records', t) == Index(records, t)
  {
    var key := EntryKey(r.tapeId, r.entryId);
    var records' := records[key := r];
    forall t, id: nat
      ensures id in Index(records', t) <==> id in Index(records, t) || (t == r.tapeId && id == r.entryId)
      ensures id in Index(records', t) && !(t == r.tapeId && id == r.entryId) ==>
                Index(records', t)[id] == Index(records, t)[id]
    {
      IndexLookup(records, t, id);
      IndexLookup(records', t, id);
      if EntryKey(t, id) == key {
        EntryKeyInjective(t, id, r.tapeId, r.entryId);
      }
    }
    IndexLookup(records', r.tapeId, r.entryId);
  }

  function PutAll(index: map<nat, Record>, tapeId: string, entries: seq<Entry>): map<nat, Record> {
    if entries == [] then index
    else
      var e := entries[|entries| - 1];
      PutAll(index, tapeId, entries[..|entries| - 1])[e.id := Record(tapeId, e.id, e)]
  }

  lemma {:induction false} PutKeepsOthers(index: map<nat, Record>, tapeId: string, entries: seq<Entry>, id: nat)
    requires forall e :: e in entries ==> e.id != id
    ensures id in PutAll(index, tapeId, entries) <==> id in index
    ensures id in index ==> PutAll(index, tapeId, entries)[id] == index[id]
  {
    if entries != [] {
      PutKeepsOthers(index, tapeId, entries[..|entries| - 1], id);
    }
  }

  /** Of several entries with one id the last put stays. */
  lemma {:induction false} LastPutStays(index: map<nat, Record>, tapeId: string, entries: seq<Entry>, i: nat)
    requires i < |entries| && forall k :: i < k < |entries| ==> entries[k].id != entries[i].id
    ensures var id, index' := entries[i].id, PutAll(index, tapeId, entries);
            id in index' && index'[id] == Record(tapeId, id, entries[i])
  {
    if i < |entries| - 1 {
      LastPutStays(index, tapeId, entries[..|entries| - 1], i);
    }
  }

  /** `records` is `before` with the entries put for the tape. */
  ghost predicate Filled(before: map<string, Record>, records: map<string, Record>, tapeId: string,
                         entries: seq<Entry>) {
    && WellKeyed(before) && WellKeyed(records)
    && Index(records, tapeId) == PutAll(Index(before, tapeId), tapeId, entries)
    && forall t :: t != tapeId ==> Index(records, t) == Index(before, t)
  }

  lemma FillOne(before: map<string, Record>, records: map<string, Record>, tapeId: string, entries: seq<Entry>, i: nat)
    requires i < |entries| && Filled(before, records, tapeId, entries[..i])
    ensures var r := Record(tapeId, entries[i].id, entries[i]);
            Filled(before, records[EntryKey(tapeId, r.entryId) := r], tapeId, entries[..i + 1])
  {
    PutOne(records, Record(tapeId, entries[i].id, entries[i]));
    assert entries[..i + 1][..i] == entries[..i];
  }

  class Cache {
    var records: map<string, Record>

    ghost predicate Valid()
      reads this
    {
      WellKeyed(records)
    }

    constructor ()
      ensures Valid() && records == map[]
    {
      records := map[];
    }

    /** `putCachedTapeEntries`: later entries win, other tapes keep theirs. */
    method PutEntries(tapeId: string, entries: seq<Entry>)
      requires Valid()
      modifies this
      ensures Valid()
      ensures Index(records, tapeId) == PutAll(Index(old(records), tapeId), tapeId, entries)
      ensures forall t :: t != tapeId ==> Index(records, t) == Index(old(records), t)
    {
      for i := 0 to |entries|
        invariant Filled(old(records), records, tapeId, entries[..i])
      {
        FillOne(old(records), records, tapeId, entries, i);
        var r := Record(tapeId, entries[i].id, entries[i]);
        records := records[EntryKey(tapeId, r.entryId) := r];
      }
      assert entries[..|entries|] == entries;
    }
  }

  // --------------------------------------------------------------- cursors

  /** The records with ids in `lo..hi`, in index order: what a forward cursor visits. */
  function Cursor(index: map<nat, Record>, lo: nat, hi: nat): seq<Record>
    decreases hi + 1 - lo
  {
    if lo > hi then []
    else if lo in index then [index[lo]] + Cursor(index, lo + 1, hi)
    else Cursor(index, lo + 1, hi)
  }

  function Entries(records: seq<Record>): seq<Entry> {
    seq(|records|, i requires 0 <= i < |records| => records[i].entry)
  }

  function Reverse<T>(s: seq<T>): seq<T> {
    if s == [] then [] else Reverse(s[1..]) + [s[0]]
  }

  function Min(a: nat, b: nat): nat {
    if a < b then a else b
  }

  /** The visited records that belong to the tape. */
  function Own(visited: seq<Record>, tapeId: string): seq<Record> {
    if visited == [] then []
    else (if visited[0].tapeId == tapeId then [visited[0]] else []) + Own(visited[1..], tapeId)
  }

  lemma OwnStep(taken: seq<Record>, visited: seq<Record>, i: nat, tapeId: string)
    requires i < |visited|
    ensures taken + Own(visited[i..], tapeId) ==
              (if visited[i].tapeId == tapeId then taken + [visited[i]] else taken) + Own(visited[i + 1..], tapeId)
  {
    assert visited[i..][1..] == visited[i + 1..];
  }

  lemma {:induction false} OwnAll(visited: seq<Record>, tapeId: string)
    requires forall r :: r in visited ==> r.tapeId == tapeId
    ensures Own(visited, tapeId) == visited
  {
    if visited != [] {
      OwnAll(visited[1..], tapeId);
    }
  }

  /** The loop of `readEntryRange` over the records its cursor visits: the tape's own ones, up to the limit. */
  method ReadEntryRange(visited: seq<Record>, tapeId: string, limit: nat) returns (out: seq<Entry>)
    ensures var own := Own(visited, tapeId);
            out == Entries(own[..Min(|own|, limit)])
  {
    out := [];
    var i := 0;
    ghost var taken: seq<Record> := [];
    while i < |visited| && |out| < limit
      invariant 0 <= i <= |visited| && |out| <= limit
      invariant out == Entries(taken) && taken + Own(visited[i..], tapeId) == Own(visited, tapeId)
    {
      OwnStep(taken, visited, i, tapeId);
      if visited[i].tapeId == tapeId {
        out := out + [visited[i].entry];
        taken := taken + [visited[i]];
      }
      i := i + 1;
    }
    assert taken == Own(visited, tapeId)[..|taken|];
  }

  // ------------------------------------------------------ pages of the log

  /** The store's answer to an offset/limit page of a log whose entry `i` has id `i + 1`. */
  function StorePage(log: seq<Entry>, offset: nat, limit: nat): seq<Entry> {
    log[Min(offset, |log|)..Min(offset + limit, |log|)]
  }

  /** Everything cached for the tape was read from its log. */
  ghost predicate CachesLog(index: map<nat, Record>, tapeId: string, log: seq<Entry>) {
    && (forall i :: 0 <= i < |log| ==> log[i].id == i + 1)
    && forall id :: id in index ==> 1 <= id <= |log| && index[id] == Record(tapeId, id, log[id - 1])
  }

  /** Caching entries read from the log keeps the cache a part of the log. */
  lemma {:induction false} PutAllCachesLog(index: map<nat, Record>, tapeId: string, log: seq<Entry>,
                                           entries: seq<Entry>)
    requires CachesLog(index, tapeId, log) && forall e :: e in entries ==> e in log
    ensures CachesLog(PutAll(index, tapeId, entries), tapeId, log)
    ensures forall id :: id in PutAll(index, tapeId, entries) <==> id in index || exists e :: e in entries && e.id == id
  {
    if entries != [] {
      var n := |entries| - 1;
      PutAllCachesLog(index, tapeId, log, entries[..n]);
      assert entries == entries[..n] + [entries[n]];
      assert entries[n] in log;
    }
  }

  /** The cached part of a slice of the log, in order. */
  function Cached(index: map<nat, Record>, slice: seq<Entry>): seq<Entry> {
    if slice == [] then []
    else if slice[0].id in index then [slice[0]] + Cached(index, slice[1..])
    else Cached(index, slice[1..])
  }

  lemma {:induction false} CursorIsCachedSlice(index: map<nat, Record>, tapeId: string, log: seq<Entry>,
                                               lo: nat, hi: nat)
    requires CachesLog(index, tapeId, log) && 0 < lo <= hi + 1
    ensures Entries(Cursor(index, lo, hi)) == Cached(index, log[Min(lo - 1, |log|)..Min(hi, |log|)])
    ensures forall r :: r in Cursor(index, lo, hi) ==> r.tapeId == tapeId
    decreases hi + 1 - lo
  {
    if lo <= hi {
      CursorIsCachedSlice(index, tapeId, log, lo + 1, hi);
      var slice := log[Min(lo - 1, |log|)..Min(hi, |log|)];
      var rest := Cursor(index, lo + 1, hi);
      if lo <= |log| {
        assert slice[0] == log[lo - 1] && slice[1..] == log[lo..Min(hi, |log|)];
        assert lo in index ==> Entries([index[lo]] + rest) == [log[lo - 1]] + Entries(rest);
      }
    }
  }

  lemma {:induction false} CachedAll(index: map<nat, Record>, slice: seq<Entry>)
    ensures |Cached(index, slice)| <= |slice|
    ensures Cached(index, slice) == slice <==> forall e :: e in slice ==> e.id in index
  {
    if slice != [] {
      CachedAll(index, slice[1..]);
      assert slice == [slice[0]] + slice[1..];
    }
  }

  /**
   * `getCachedTapeEntriesPage` shows the cached entries of the store's page, in order;
   * it equals the store's page iff all of them are cached.
   */
  method GetPage(index: map<nat, Record>, tapeId: string, offset: nat, limit: int, ghost log: seq<Entry>)
    returns (page: seq<Entry>)
    requires CachesLog(index, tapeId, log)
    ensures limit <= 0 ==> page == []
    ensures limit > 0 ==> page == Cached(index, StorePage(log, offset, limit))
    ensures limit > 0 ==>
              (page == StorePage(log, offset, limit) <==>
               forall e :: e in StorePage(log, offset, limit) ==> e.id in index)
  {
    if limit <= 0 {
      return [];
    }
    var visited := Cursor(index, offset + 1, offset + limit);
    CursorIsCachedSlice(index, tapeId, log, offset + 1, offset + limit);
    CachedAll(index, StorePage(log, offset, limit));
    OwnAll(visited, tapeId);
    page := ReadEntryRange(visited, tapeId, limit);
    assert |Entries(visited)| <= limit;
    assert visited[..|visited|] == visited;
  }

  lemma {:induction false} ReverseMirrors<T>(s: seq<T>)
    ensures |Reverse(s)| == |s| && forall i :: 0 <= i < |s| ==> Reverse(s)[i] == s[|s| - 1 - i]
  {
    if s != [] {
      ReverseMirrors(s[1..]);
    }
  }

  /** `getCachedLatestTapeEntries` shows the last `limit` cached entries of the log, in log order. */
  method GetLatest(index: map<nat, Record>, tapeId: string, limit: int, ghost log: seq<Entry>)
    returns (latest: seq<Entry>)
    requires CachesLog(index, tapeId, log) && |log| <= MAX_SAFE_INTEGER
    ensures var cached := Cached(index, log);
            latest == if limit <= 0 then [] else cached[|cached| - Min(|cached|, limit)..]
  {
    if limit <= 0 {
      return [];
    }
    var forward := Cursor(index, 0, MAX_SAFE_INTEGER);
    WholeCursor(index, tapeId, log);
    ReverseMirrors(forward);
    OwnAll(Reverse(forward), tapeId);
    var backward := ReadEntryRange(Reverse(forward), tapeId, limit);
    latest := Reverse(backward);
    LatestIsTail(forward, limit, backward);
  }

  lemma WholeCursor(index: map<nat, Record>, tapeId: string, log: seq<Entry>)
    requires CachesLog(index, tapeId, log) && |log| <= MAX_SAFE_INTEGER
    ensures Entries(Cursor(index, 0, MAX_SAFE_INTEGER)) == Cached(index, log)
    ensures forall r :: r in Cursor(index, 0, MAX_SAFE_INTEGER) ==> r.tapeId == tapeId
  {
    CursorIsCachedSlice(index, tapeId, log, 1, MAX_SAFE_INTEGER);
    assert log[0..|log|] == log;
  }

  lemma LatestIsTail(forward: seq<Record>, limit: nat, backward: seq<Entry>)
    requires |Reverse(forward)| == |forward|
    requires backward == Entries(Reverse(forward)[..Min(|forward|, limit)])
    ensures Reverse(backward) == Entries(forward)[|forward| - Min(|forward|, limit)..]
  {
    ReverseMirrors(forward);
    ReverseMirrors(backward);
  }
}
