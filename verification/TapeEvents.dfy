/**
 * The `ifChanged` setters of `Tape`: a record is appended only when the latest
 * record of the same event differs, compared by stable text.
 */
module TapeEvents {
  import opened StableJson
  import opened JsonText

  datatype Entry = Event(name: string, data: Json) | Other

  datatype Status = Missing | Current | Changed

  /** A call of one of the setters. */
  datatype Write = Write(name: string, data: Json, ifChanged: bool)

  predicate Truthy(v: Json) {
    match v
    case Null => false
    case Bool(b) => b
    case Num(text) => text != "0"
    case Str(s) => s != ""
    case _ => true
  }

  predicate IsNamed(e: Entry, name: string) {
    e.Event? && e.name == name
  }

  /** The data of the last record of the event, `Null` when there is none. */
  function Latest(entries: seq<Entry>, name: string): Json {
    if entries == [] then Null
    else
      var e := entries[|entries| - 1];
      if IsNamed(e, name) then e.data else Latest(entries[..|entries| - 1], name)
  }

  /** The loop of `latestEventData`. */
  method LatestEventData(entries: seq<Entry>, name: string) returns (data: Json)
    ensures data == Latest(entries, name)
  {
    var i := |entries| - 1;
    assert entries[..i + 1] == entries;
    while i >= 0
      invariant -1 <= i < |entries|
      invariant Latest(entries[..i + 1], name) == Latest(entries, name)
    {
      if IsNamed(entries[i], name) {
        return entries[i].data;
      }
      assert entries[..i + 1][..i] == entries[..i];
      i := i - 1;
    }
    assert entries[..0] == [];
    return Null;
  }

  function EntryStatus(collate: Order, entries: seq<Entry>, name: string, data: Json): Status {
    var latest := Latest(entries, name);
    if !Truthy(latest) then Missing
    else if StableStringify(collate, latest) == StableStringify(collate, data) then Current
    else Changed
  }

  /** One setter call. */
  function Apply(collate: Order, entries: seq<Entry>, w: Write): seq<Entry> {
    if w.ifChanged && EntryStatus(collate, entries, w.name, w.data).Current? then entries
    else entries + [Event(w.name, w.data)]
  }

  /** A serialized run of setter calls on a tape. */
  function ApplyAll(collate: Order, entries: seq<Entry>, writes: seq<Write>): seq<Entry> {
    if writes == [] then entries
    else Apply(collate, ApplyAll(collate, entries, writes[..|writes| - 1]), writes[|writes| - 1])
  }

  /** Records `i` and `j` of the event have no other record of it between them. */
  ghost predicate Consecutive(entries: seq<Entry>, name: string, i: nat, j: nat) {
    && i < j < |entries| && IsNamed(entries[i], name) && IsNamed(entries[j], name)
    && forall k :: i < k < j ==> !IsNamed(entries[k], name)
  }

  ghost predicate NoRepeats(entries: seq<Entry>, name: string) {
    forall i: nat, j: nat :: Consecutive(entries, name, i, j) ==> !Same(entries[i].data, entries[j].data)
  }

  /** Setters build an object for their data; all data of the event is such. */
  ghost predicate ObjectData(entries: seq<Entry>, name: string) {
    forall e :: e in entries && IsNamed(e, name) ==> e.data.Obj? && WellFormed(e.data)
  }

  lemma {:induction false} LatestIsLast(entries: seq<Entry>, name: string, i: nat)
    requires i < |entries| && IsNamed(entries[i], name)
    requires forall k :: i < k < |entries| ==> !IsNamed(entries[k], name)
    ensures Latest(entries, name) == entries[i].data
  {
    if i < |entries| - 1 {
      LatestIsLast(entries[..|entries| - 1], name, i);
    }
  }

  /** A setter with `ifChanged` never puts equal data next to each other. */
  lemma WriteKeepsNoRepeats(collate: Order, entries: seq<Entry>, w: Write, name: string)
    requires IsOrder(collate) && ObjectData(entries, name) && NoRepeats(entries, name)
    requires w.name == name ==> w.ifChanged && w.data.Obj? && WellFormed(w.data) && Untied(collate, w.data)
    ensures ObjectData(Apply(collate, entries, w), name) && NoRepeats(Apply(collate, entries, w), name)
  {
    var after := Apply(collate, entries, w);
    if after != entries {
      var n := |entries|;
      forall i: nat, j: nat | Consecutive(after, name, i, j) ensures !Same(after[i].data, after[j].data) {
        assert forall k :: 0 <= k < n ==> after[k] == entries[k];
        if j < n {
          assert Consecutive(entries, name, i, j);
        } else {
          LatestIsLast(entries, name, i);
          assert entries[i] in entries;
          StableTextIsCanonical(collate, w.data, entries[i].data);
          if Same(entries[i].data, w.data) {
            SameSymmetric(entries[i].data, w.data);
          }
        }
      }
    }
  }

  /**
   * In a serialized run where every writer of an event uses `ifChanged` and data without
   * tied keys, no two consecutive records of that event carry data that differs only in key
   * order.
   */
  lemma {:induction false} RunHasNoRepeats(collate: Order, entries: seq<Entry>, writes: seq<Write>, name: string)
    requires IsOrder(collate) && ObjectData(entries, name) && NoRepeats(entries, name)
    requires forall w :: w in writes && w.name == name ==>
               w.ifChanged && w.data.Obj? && WellFormed(w.data) && Untied(collate, w.data)
    ensures ObjectData(ApplyAll(collate, entries, writes), name) && NoRepeats(ApplyAll(collate, entries, writes), name)
  {
    if writes != [] {
      var n := |writes| - 1;
      assert forall w :: w in writes[..n] ==> w in writes;
      RunHasNoRepeats(collate, entries, writes[..n], name);
      WriteKeepsNoRepeats(collate, ApplyAll(collate, entries, writes[..n]), writes[n], name);
    }
  }

  /** And none is lost: after any setter call the latest record of the event is the call's data, up to key order. */
  lemma WriteIsLatest(collate: Order, entries: seq<Entry>, w: Write)
    requires IsOrder(collate) && WellFormed(w.data) && WellFormed(Latest(entries, w.name))
    ensures Same(Latest(Apply(collate, entries, w), w.name), w.data)
  {
    if Apply(collate, entries, w) == entries + [Event(w.name, w.data)] {
      SameReflexive(w.data);
    } else {
      EqualTextIsSame(collate, Latest(entries, w.name), w.data);
    }
  }

  /** The tape's latest record of the event is `data` up to key order, and yet the setter appends it again. */
  ghost predicate RepeatedOn(collate: Order, entries: seq<Entry>, name: string, data: Json) {
    var latest := Latest(entries, name);
    && WellFormed(latest) && Same(data, latest)
    && Apply(collate, entries, Write(name, data, true)) != entries
  }

  /** The exact condition: an `ifChanged` setter repeats `data` on no tape iff its keys do not tie. */
  lemma RepeatsNothingIffUntied(collate: Order, name: string, data: Json)
    requires IsOrder(collate) && data.Obj? && WellFormed(data)
    ensures Untied(collate, data) <==> forall entries :: !RepeatedOn(collate, entries, name, data)
  {
    CanonicalIffUntied(collate, data);
    if Untied(collate, data) {
      forall entries ensures !RepeatedOn(collate, entries, name, data) {
        assert !SpoiltBy(collate, data, Latest(entries, name));
      }
    } else {
      var b :| SpoiltBy(collate, data, b);
      assert Latest([Event(name, b)], name) == b;
      assert RepeatedOn(collate, [Event(name, b)], name, data);
    }
  }

  /** The tape has a record of the event whose data is `data` up to key order, and none after it. */
  ghost predicate LatestRecordIs(entries: seq<Entry>, name: string, data: Json) {
    exists i :: 0 <= i < |entries| && IsNamed(entries[i], name) && Same(entries[i].data, data)
      && forall k :: i < k < |entries| ==> !IsNamed(entries[k], name)
  }

  lemma {:induction false} NoRecordNoLatest(entries: seq<Entry>, name: string)
    requires forall e :: e in entries ==> !IsNamed(e, name)
    ensures Latest(entries, name) == Null
  {
    if entries != [] {
      NoRecordNoLatest(entries[..|entries| - 1], name);
    }
  }

  lemma {:induction false} LastRecord(entries: seq<Entry>, name: string) returns (i: nat)
    requires exists e :: e in entries && IsNamed(e, name)
    ensures i < |entries| && IsNamed(entries[i], name) && Latest(entries, name) == entries[i].data
    ensures forall k :: i < k < |entries| ==> !IsNamed(entries[k], name)
  {
    var n := |entries| - 1;
    if IsNamed(entries[n], name) {
      i := n;
    } else {
      var e :| e in entries && IsNamed(e, name);
      assert e in entries[..n];
      i := LastRecord(entries[..n], name);
    }
  }

  /**
   * What a status query answers for data without tied keys: missing without a record, current
   * if the latest record is that data up to key order, changed otherwise.
   */
  lemma StatusIs(collate: Order, entries: seq<Entry>, name: string, data: Json)
    requires IsOrder(collate) && ObjectData(entries, name) && data.Obj? && WellFormed(data) && Untied(collate, data)
    ensures EntryStatus(collate, entries, name, data) == Missing <==> forall e :: e in entries ==> !IsNamed(e, name)
    ensures EntryStatus(collate, entries, name, data) == Current <==> LatestRecordIs(entries, name, data)
  {
    if e :| e in entries && IsNamed(e, name) {
      var i := LastRecord(entries, name);
      assert entries[i] in entries;
      var d := entries[i].data;
      StableTextIsCanonical(collate, data, d);
      if Same(d, data) {
        SameSymmetric(d, data);
      }
      if Same(data, d) {
        SameSymmetric(data, d);
      }
    } else {
      NoRecordNoLatest(entries, name);
    }
  }

  /** A setter appends its data as it is, unless it was asked to look and the latest record is that data already. */
  lemma SetterAppendsUnlessCurrent(collate: Order, entries: seq<Entry>, w: Write)
    requires IsOrder(collate) && ObjectData(entries, w.name) && w.data.Obj? && WellFormed(w.data)
    requires Untied(collate, w.data)
    ensures Apply(collate, entries, w) ==
              if w.ifChanged && LatestRecordIs(entries, w.name, w.data) then entries
              else entries + [Event(w.name, w.data)]
  {
    StatusIs(collate, entries, w.name, w.data);
  }

  /** Without `ifChanged` it always appends, whatever the collation and the data. */
  lemma PlainSetterAppends(collate: Order, entries: seq<Entry>, name: string, data: Json)
    ensures Apply(collate, entries, Write(name, data, false)) == entries + [Event(name, data)]
  {
  }
}
