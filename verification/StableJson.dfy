/**
 * `sortObject` and `stableStringify`: a canonical text of a JSON value.
 *
 * An object is its list of fields in own-property order. The collation behind
 * `localeCompare` is a parameter: any total preorder on texts.
 */
module StableJson {
  import opened Text

  /** A number is the text the runtime prints for it. */
  datatype Json =
    | Null
    | Bool(b: bool)
    | Num(text: string)
    | Str(s: string)
    | Arr(items: seq<Json>)
    | Obj(fields: seq<Field>)

  datatype Field = Field(key: string, value: Json)

  type Order = (string, string) -> bool

  ghost predicate IsOrder(leq: Order) {
    && (forall a, b :: leq(a, b) || leq(b, a))
    && (forall a, b, c :: leq(a, b) && leq(b, c) ==> leq(a, c))
  }

  ghost predicate DistinctKeys(fields: seq<Field>) {
    forall i, j :: 0 <= i < j < |fields| ==> fields[i].key != fields[j].key
  }

  // ------------------------------------------------------- the stable sort

  function Insert(leq: Order, f: Field, sorted: seq<Field>): seq<Field> {
    if sorted == [] then [f]
    else if leq(f.key, sorted[0].key) then [f] + sorted
    else [sorted[0]] + Insert(leq, f, sorted[1..])
  }

  /** A stable sort by key. */
  function SortBy(leq: Order, fields: seq<Field>): seq<Field> {
    if fields == [] then [] else Insert(leq, fields[0], SortBy(leq, fields[1..]))
  }

  ghost predicate SameElements(a: seq<Field>, b: seq<Field>) {
    forall f :: f in a <==> f in b
  }

  ghost predicate Sorted(leq: Order, fields: seq<Field>) {
    forall i, j :: 0 <= i < j < |fields| ==> leq(fields[i].key, fields[j].key)
  }

  lemma {:induction false} InsertElements(leq: Order, f: Field, sorted: seq<Field>)
    ensures forall g :: g in Insert(leq, f, sorted) <==> g == f || g in sorted
    ensures |Insert(leq, f, sorted)| == |sorted| + 1
    ensures DistinctKeys(sorted) && (forall g :: g in sorted ==> g.key != f.key) ==>
              DistinctKeys(Insert(leq, f, sorted))
  {
    if sorted != [] && !leq(f.key, sorted[0].key) {
      InsertElements(leq, f, sorted[1..]);
      assert sorted == [sorted[0]] + sorted[1..];
      forall g | g in sorted[1..] && DistinctKeys(sorted) ensures g.key != sorted[0].key {
        var j :| 0 <= j < |sorted[1..]| && sorted[1..][j] == g;
        assert sorted[j + 1] == g;
      }
      ConsDistinct(sorted[0], Insert(leq, f, sorted[1..]));
    } else {
      ConsDistinct(f, sorted);
    }
  }

  lemma ConsDistinct(f: Field, fields: seq<Field>)
    ensures DistinctKeys(fields) && (forall g :: g in fields ==> g.key != f.key) ==> DistinctKeys([f] + fields)
  {
  }

  /** Sorting keeps the fields and their distinctness. */
  lemma {:induction false} SortElements(leq: Order, fields: seq<Field>)
    ensures SameElements(SortBy(leq, fields), fields)
    ensures |SortBy(leq, fields)| == |fields|
    ensures DistinctKeys(fields) ==> DistinctKeys(SortBy(leq, fields))
  {
    if fields != [] {
      SortElements(leq, fields[1..]);
      InsertElements(leq, fields[0], SortBy(leq, fields[1..]));
      assert fields == [fields[0]] + fields[1..];
    }
  }

  /** First by `p`, ties by `q`. */
  ghost predicate Lex(p: Order, q: Order, a: string, b: string) {
    p(a, b) && (p(b, a) ==> q(a, b))
  }

  ghost predicate LexSorted(p: Order, q: Order, fields: seq<Field>) {
    forall i, j :: 0 <= i < j < |fields| ==> Lex(p, q, fields[i].key, fields[j].key)
  }

  lemma LexCons(p: Order, q: Order, f: Field, rest: seq<Field>)
    requires LexSorted(p, q, rest) && forall g :: g in rest ==> Lex(p, q, f.key, g.key)
    ensures LexSorted(p, q, [f] + rest)
  {
  }

  lemma {:induction false} InsertLex(p: Order, q: Order, f: Field, sorted: seq<Field>)
    requires IsOrder(p) && LexSorted(p, q, sorted) && forall g :: g in sorted ==> q(f.key, g.key)
    ensures LexSorted(p, q, Insert(p, f, sorted))
  {
    if sorted != [] {
      var head, tail := sorted[0], sorted[1..];
      assert sorted == [head] + tail;
      if p(f.key, head.key) {
        forall g | g in sorted ensures Lex(p, q, f.key, g.key) {
          assert g == head || g in tail;
        }
        LexCons(p, q, f, sorted);
      } else {
        InsertLex(p, q, f, tail);
        InsertElements(p, f, tail);
        LexCons(p, q, head, Insert(p, f, tail));
      }
    }
  }

  /** Stability: sorting by `p` what is sorted by `q` gives the lexicographic order. */
  lemma {:induction false} SortIsStable(p: Order, q: Order, fields: seq<Field>)
    requires IsOrder(p) && Sorted(q, fields)
    ensures LexSorted(p, q, SortBy(p, fields))
  {
    if fields != [] {
      var tail := fields[1..];
      SortIsStable(p, q, tail);
      SortElements(p, tail);
      forall g | g in SortBy(p, tail) ensures q(fields[0].key, g.key) {
        var j :| 0 <= j < |tail| && tail[j] == g;
        assert fields[j + 1] == g;
      }
      InsertLex(p, q, fields[0], SortBy(p, tail));
    }
  }

  /** Sorting sorts. */
  lemma SortSorts(leq: Order, fields: seq<Field>)
    requires IsOrder(leq)
    ensures Sorted(leq, SortBy(leq, fields))
  {
    var any: Order := (a: string, b: string) => true;
    SortIsStable(leq, any, fields);
  }

  /** Two lists of the same fields, both in an order without ties between different keys, are equal. */
  lemma {:induction false} SortedIsUnique(p: Order, q: Order, a: seq<Field>, b: seq<Field>)
    requires |a| == |b| && DistinctKeys(a) && DistinctKeys(b) && SameElements(a, b)
    requires LexSorted(p, q, a) && LexSorted(p, q, b)
    requires forall f, g :: f in a && g in a && Lex(p, q, f.key, g.key) && Lex(p, q, g.key, f.key) ==> f.key == g.key
    ensures a == b
  {
    if a != [] {
      assert a[0] in a && a[0] in b;
      assert b[0] in b && b[0] in a;
      TailsAgree(a, b);
      SortedIsUnique(p, q, a[1..], b[1..]);
      assert a == [a[0]] + a[1..] && b == [b[0]] + b[1..];
    }
  }

  lemma TailsAgree(a: seq<Field>, b: seq<Field>)
    requires a != [] && b != [] && a[0] == b[0] && DistinctKeys(a) && DistinctKeys(b) && SameElements(a, b)
    ensures SameElements(a[1..], b[1..])
  {
    forall f ensures f in a[1..] <==> f in a && f != a[0] {
      if f in a[1..] {
        var i :| 0 <= i < |a[1..]| && a[1..][i] == f;
        assert a[i + 1] == f;
      }
    }
    forall f ensures f in b[1..] <==> f in b && f != b[0] {
      if f in b[1..] {
        var i :| 0 <= i < |b[1..]| && b[1..][i] == f;
        assert b[i + 1] == f;
      }
    }
  }

  // ----------------------------------------------------------- sortObject

  /** Texts that are array indices: an object lists them first, in numeric order. */
  predicate IsIndex(key: string) {
    && key != "" && (forall c :: c in key ==> IsDigit(c))
    && (key[0] == '0' ==> key == "0")
    && NumberOf(key) < 0xFFFF_FFFF
  }

  /** The order in which an object built field by field lists its keys; texts other than indices tie. */
  function OwnKeyOrder(): Order {
    (a: string, b: string) =>
      if IsIndex(a) && IsIndex(b) then NumberOf(a) <= NumberOf(b) else IsIndex(a) || !IsIndex(b)
  }

  /** Sort by the collation, then rebuild the object. */
  function Arrange(collate: Order, fields: seq<Field>): seq<Field> {
    SortBy(OwnKeyOrder(), SortBy(collate, fields))
  }

  /** `sortObject`. Sorting looks at keys only, so values may be sorted before or after. */
  function SortObject(collate: Order, v: Json): Json
    decreases v, 1
  {
    match v
    case Arr(items) => Arr(SortItems(collate, items))
    case Obj(fields) => Obj(Arrange(collate, SortValues(collate, fields)))
    case _ => v
  }

  function SortItems(collate: Order, items: seq<Json>): (r: seq<Json>)
    ensures |r| == |items|
    decreases items, 0
  {
    if items == [] then [] else [SortObject(collate, items[0])] + SortItems(collate, items[1..])
  }

  function SortValues(collate: Order, fields: seq<Field>): (r: seq<Field>)
    ensures |r| == |fields|
    decreases fields, 0
  {
    if fields == [] then []
    else [Field(fields[0].key, SortObject(collate, fields[0].value))] + SortValues(collate, fields[1..])
  }

  /** Objects have distinct keys, at every depth. */
  ghost predicate WellFormed(v: Json)
    decreases v
  {
    match v
    case Num(text) => text != "" && forall c :: c in text ==> IsNumChar(c)
    case Arr(items) => forall x :: x in items ==> WellFormed(x)
    case Obj(fields) => DistinctKeys(fields) && forall f :: f in fields ==> WellFormed(f.value)
    case _ => true
  }

  predicate IsNumChar(c: char) {
    IsDigit(c) || c == '-' || c == '+' || c == '.' || c == 'e' || c == 'E'
  }

  /** `a` and `b` differ only in the order of object keys. */
  ghost predicate Same(a: Json, b: Json)
    decreases a
  {
    match (a, b)
    case (Arr(xs), Arr(ys)) => |xs| == |ys| && forall i :: 0 <= i < |xs| ==> Same(xs[i], ys[i])
    case (Obj(fs), Obj(gs)) =>
      && (forall f :: f in fs ==> exists g :: g in gs && g.key == f.key && Same(f.value, g.value))
      && Keys(fs) == Keys(gs)
    case _ => a == b
  }

  function Keys(fields: seq<Field>): set<string> {
    set f | f in fields :: f.key
  }

  /** No two different keys other than array indices tie in the collation. */
  ghost predicate NoTies(collate: Order, fields: seq<Field>) {
    forall f, g :: f in fields && g in fields ==> !Ties(collate, f.key, g.key)
  }

  predicate Ties(collate: Order, k: string, l: string) {
    k != l && !IsIndex(k) && !IsIndex(l) && collate(k, l) && collate(l, k)
  }

  /** No object inside `v` has two keys that tie. */
  ghost predicate Untied(collate: Order, v: Json)
    decreases v
  {
    match v
    case Arr(items) => forall x :: x in items ==> Untied(collate, x)
    case Obj(fields) => NoTies(collate, fields) && forall f :: f in fields ==> Untied(collate, f.value)
    case _ => true
  }

  // ------------------------------------------------------ canonical order

  lemma IndexKeysDiffer(a: string, b: string)
    requires IsIndex(a) && IsIndex(b) && NumberOf(a) == NumberOf(b)
    ensures a == b
  {
    CanonicalDecimal(a);
    CanonicalDecimal(b);
  }

  lemma HeadIsNew(fields: seq<Field>)
    requires DistinctKeys(fields) && fields != []
    ensures DistinctKeys(fields[1..]) && fields[0] !in fields[1..]
    ensures (set f | f in fields) == (set f | f in fields[1..]) + {fields[0]}
  {
    assert fields == [fields[0]] + fields[1..];
  }

  lemma {:induction false} CountOfDistinct(fields: seq<Field>)
    requires DistinctKeys(fields)
    ensures |set f | f in fields| == |fields|
  {
    if fields != [] {
      HeadIsNew(fields);
      CountOfDistinct(fields[1..]);
    }
  }

  /** The arranged fields are in key order, ties of the collation aside. */
  lemma ArrangeSorts(collate: Order, fields: seq<Field>)
    requires IsOrder(collate)
    ensures IsOrder(OwnKeyOrder()) && LexSorted(OwnKeyOrder(), collate, Arrange(collate, fields))
    ensures SameElements(Arrange(collate, fields), fields) && |Arrange(collate, fields)| == |fields|
    ensures DistinctKeys(fields) ==> DistinctKeys(Arrange(collate, fields))
  {
    var sorted := SortBy(collate, fields);
    SortElements(collate, fields);
    SortSorts(collate, fields);
    SortElements(OwnKeyOrder(), sorted);
    SortIsStable(OwnKeyOrder(), collate, sorted);
  }

  /** The same fields in any two orders are arranged alike, if no two of their keys tie. */
  lemma ArrangeIsCanonical(collate: Order, a: seq<Field>, b: seq<Field>)
    requires IsOrder(collate) && NoTies(collate, a)
    requires DistinctKeys(a) && DistinctKeys(b) && SameElements(a, b)
    ensures Arrange(collate, a) == Arrange(collate, b)
  {
    ArrangeSorts(collate, a);
    ArrangeSorts(collate, b);
    CountOfDistinct(a);
    CountOfDistinct(b);
    assert (set f | f in a) == (set f | f in b);
    var own, arranged := OwnKeyOrder(), Arrange(collate, a);
    forall f, g | f in arranged && g in arranged && Lex(own, collate, f.key, g.key) && Lex(own, collate, g.key, f.key)
      ensures f.key == g.key
    {
      assert !Ties(collate, f.key, g.key);
      if IsIndex(f.key) && IsIndex(g.key) {
        IndexKeysDiffer(f.key, g.key);
      }
    }
    SortedIsUnique(own, collate, arranged, Arrange(collate, b));
  }

  lemma {:induction false} SortItemsAt(collate: Order, items: seq<Json>, i: nat)
    requires i < |items|
    ensures SortItems(collate, items)[i] == SortObject(collate, items[i])
  {
    if i > 0 {
      SortItemsAt(collate, items[1..], i - 1);
    }
  }

  function SortField(collate: Order, f: Field): Field {
    Field(f.key, SortObject(collate, f.value))
  }

  lemma {:induction false} SortValuesElements(collate: Order, fields: seq<Field>)
    ensures forall f :: f in fields ==> SortField(collate, f) in SortValues(collate, fields)
    ensures forall x :: x in SortValues(collate, fields) ==> exists f :: f in fields && SortField(collate, f) == x
    ensures DistinctKeys(fields) ==> DistinctKeys(SortValues(collate, fields))
  {
    if fields != [] {
      var head, tail := fields[0], fields[1..];
      SortValuesElements(collate, tail);
      assert fields == [head] + tail;
      var r := SortValues(collate, tail);
      assert SortValues(collate, fields) == [SortField(collate, head)] + r;
      if DistinctKeys(fields) {
        forall x | x in r ensures x.key != head.key {
          var f :| f in tail && SortField(collate, f) == x;
          var j :| 0 <= j < |tail| && tail[j] == f;
          assert fields[j + 1] == f;
        }
        ConsDistinct(SortField(collate, head), r);
      }
    }
  }

  /** Every field of `fs` has one in `gs` with the same key and a value that sorts alike. */
  ghost predicate Matches(collate: Order, fs: seq<Field>, gs: seq<Field>) {
    forall f :: f in fs ==> exists g :: g in gs && SortField(collate, g) == SortField(collate, f)
  }

  lemma SortValuesNoTies(collate: Order, fields: seq<Field>)
    requires NoTies(collate, fields)
    ensures NoTies(collate, SortValues(collate, fields))
  {
    SortValuesElements(collate, fields);
    var values := SortValues(collate, fields);
    forall x, y | x in values && y in values ensures !Ties(collate, x.key, y.key) {
      var f :| f in fields && SortField(collate, f) == x;
      var g :| g in fields && SortField(collate, g) == y;
      assert !Ties(collate, f.key, g.key);
    }
  }

  lemma MatchedValues(collate: Order, fs: seq<Field>, gs: seq<Field>)
    requires Matches(collate, fs, gs) && DistinctKeys(fs)
    ensures DistinctKeys(SortValues(collate, fs))
    ensures forall x :: x in SortValues(collate, fs) ==> x in SortValues(collate, gs)
  {
    SortValuesElements(collate, fs);
    SortValuesElements(collate, gs);
    forall x | x in SortValues(collate, fs) ensures x in SortValues(collate, gs) {
      var f :| f in fs && SortField(collate, f) == x;
    }
  }

  /** Fields that match both ways are arranged alike. */
  lemma MatchingArrangesAlike(collate: Order, fs: seq<Field>, gs: seq<Field>)
    requires IsOrder(collate) && NoTies(collate, fs) && DistinctKeys(fs) && DistinctKeys(gs)
    requires Matches(collate, fs, gs) && Matches(collate, gs, fs)
    ensures Arrange(collate, SortValues(collate, fs)) == Arrange(collate, SortValues(collate, gs))
  {
    MatchedValues(collate, fs, gs);
    MatchedValues(collate, gs, fs);
    SortValuesNoTies(collate, fs);
    ArrangeIsCanonical(collate, SortValues(collate, fs), SortValues(collate, gs));
  }

  lemma ArrangedAlikeMatches(collate: Order, fs: seq<Field>, gs: seq<Field>)
    requires IsOrder(collate)
    requires Arrange(collate, SortValues(collate, fs)) == Arrange(collate, SortValues(collate, gs))
    ensures Matches(collate, fs, gs)
  {
    SortValuesElements(collate, fs);
    SortValuesElements(collate, gs);
    ArrangeSorts(collate, SortValues(collate, fs));
    ArrangeSorts(collate, SortValues(collate, gs));
    forall f | f in fs ensures exists g :: g in gs && SortField(collate, g) == SortField(collate, f) {
      assert SortField(collate, f) in SortValues(collate, gs);
    }
  }

  /** `f` has a field in `gs` with the same key and the same value up to key order. */
  ghost predicate HasSame(f: Field, gs: seq<Field>) {
    exists g :: g in gs && g.key == f.key && Same(f.value, g.value)
  }

  /** Values that differ only in key order sort to the same value, if the keys of one do not tie. */
  lemma {:induction false} SameSortsAlike(collate: Order, a: Json, b: Json)
    requires IsOrder(collate) && Untied(collate, a) && WellFormed(a) && WellFormed(b) && Same(a, b)
    ensures SortObject(collate, a) == SortObject(collate, b)
    decreases a
  {
    match (a, b)
    case (Arr(xs), Arr(ys)) =>
      forall i | 0 <= i < |xs| ensures SortItems(collate, xs)[i] == SortItems(collate, ys)[i] {
        SameSortsAlike(collate, xs[i], ys[i]);
        SortItemsAt(collate, xs, i);
        SortItemsAt(collate, ys, i);
      }
    case (Obj(fs), Obj(gs)) =>
      forall f | f in fs ensures exists g :: g in gs && SortField(collate, g) == SortField(collate, f) {
        var g :| g in gs && g.key == f.key && Same(f.value, g.value);
        SameSortsAlike(collate, f.value, g.value);
        assert SortField(collate, g) == SortField(collate, f);
      }
      MatchesBack(collate, fs, gs);
      MatchingArrangesAlike(collate, fs, gs);
    case _ =>
  }

  /** With distinct keys, matching one way and having no other keys is matching both ways. */
  lemma MatchesBack(collate: Order, fs: seq<Field>, gs: seq<Field>)
    requires Matches(collate, fs, gs) && DistinctKeys(gs) && Keys(gs) <= Keys(fs)
    ensures Matches(collate, gs, fs)
  {
    forall g | g in gs ensures exists f :: f in fs && SortField(collate, f) == SortField(collate, g) {
      assert g.key in Keys(gs);
      var f :| f in fs && f.key == g.key;
      var g' :| g' in gs && SortField(collate, g') == SortField(collate, f);
    }
  }

  lemma MatchHasKeys(collate: Order, gs: seq<Field>, fs: seq<Field>)
    requires Matches(collate, gs, fs)
    ensures Keys(gs) <= Keys(fs)
  {
    forall g | g in gs ensures g.key in Keys(fs) {
      var f :| f in fs && SortField(collate, f) == SortField(collate, g);
      assert f.key in Keys(fs);
    }
  }

  lemma ArrangedAlikeKeys(collate: Order, fs: seq<Field>, gs: seq<Field>)
    requires IsOrder(collate)
    requires Arrange(collate, SortValues(collate, fs)) == Arrange(collate, SortValues(collate, gs))
    ensures Keys(fs) == Keys(gs)
  {
    assert Keys(fs) <= Keys(gs) by {
      ArrangedAlikeMatches(collate, fs, gs);
      MatchHasKeys(collate, fs, gs);
    }
    assert Keys(gs) <= Keys(fs) by {
      ArrangedAlikeMatches(collate, gs, fs);
      MatchHasKeys(collate, gs, fs);
    }
  }

  /** Values that sort to the same value differ only in key order. */
  lemma {:induction false} AlikeIsSame(collate: Order, a: Json, b: Json)
    requires IsOrder(collate) && SortObject(collate, a) == SortObject(collate, b)
    ensures Same(a, b)
    decreases a, 1
  {
    match (a, b)
    case (Arr(xs), Arr(ys)) => AlikeItems(collate, xs, ys);
    case (Obj(fs), Obj(gs)) =>
      ArrangedAlikeMatches(collate, fs, gs);
      ArrangedAlikeKeys(collate, fs, gs);
      AlikeFields(collate, fs, gs);
    case _ =>
  }

  lemma {:induction false} AlikeItems(collate: Order, xs: seq<Json>, ys: seq<Json>)
    requires IsOrder(collate) && SortItems(collate, xs) == SortItems(collate, ys)
    ensures Same(Arr(xs), Arr(ys))
    decreases xs, 0
  {
    forall i | 0 <= i < |xs| ensures Same(xs[i], ys[i]) {
      SortItemsAt(collate, xs, i);
      SortItemsAt(collate, ys, i);
      AlikeIsSame(collate, xs[i], ys[i]);
    }
  }

  lemma {:induction false} AlikeFields(collate: Order, fs: seq<Field>, gs: seq<Field>)
    requires IsOrder(collate) && Matches(collate, fs, gs) && Keys(fs) == Keys(gs)
    ensures Same(Obj(fs), Obj(gs))
    decreases fs, 0
  {
    forall f | f in fs ensures HasSame(f, gs) {
      var g :| g in gs && SortField(collate, g) == SortField(collate, f);
      AlikeIsSame(collate, f.value, g.value);
    }
  }

  lemma {:induction false} SameReflexive(v: Json)
    ensures Same(v, v)
    decreases v
  {
    match v
    case Arr(items) =>
      forall i | 0 <= i < |items| ensures Same(items[i], items[i]) {
        SameReflexive(items[i]);
      }
    case Obj(fields) =>
      forall f | f in fields ensures HasSame(f, fields) {
        SameReflexive(f.value);
      }
    case _ =>
  }

  lemma {:induction false} SameSymmetric(a: Json, b: Json)
    requires WellFormed(a) && WellFormed(b) && Same(a, b)
    ensures Same(b, a)
    decreases a
  {
    match (a, b)
    case (Arr(xs), Arr(ys)) =>
      forall i | 0 <= i < |xs| ensures Same(ys[i], xs[i]) {
        SameSymmetric(xs[i], ys[i]);
      }
    case (Obj(fs), Obj(gs)) =>
      forall g | g in gs ensures HasSame(g, fs) {
        assert g.key in Keys(gs);
        var f :| f in fs && f.key == g.key;
        var g' :| g' in gs && g'.key == f.key && Same(f.value, g'.value);
        SameSymmetric(f.value, g.value);
      }
    case _ =>
  }

  // -------------------------------------------------------- tied keys

  /** The position of the field with key `k`, or the number of fields. */
  function KeyIndex(fields: seq<Field>, k: string): (i: nat)
    ensures i <= |fields|
    ensures i < |fields| ==> fields[i].key == k
    ensures forall j :: 0 <= j < i ==> fields[j].key != k
  {
    if fields == [] || fields[0].key == k then 0 else 1 + KeyIndex(fields[1..], k)
  }

  /** Both keys occur, `k` before `l`. */
  predicate Before(fields: seq<Field>, k: string, l: string) {
    KeyIndex(fields, k) < KeyIndex(fields, l) < |fields|
  }

  /** The order of the fields as they are. */
  function AsListed(fields: seq<Field>): Order {
    (a: string, b: string) => KeyIndex(fields, a) <= KeyIndex(fields, b)
  }

  lemma ListedIsSorted(fields: seq<Field>)
    requires DistinctKeys(fields)
    ensures Sorted(AsListed(fields), fields)
  {
    forall i, j | 0 <= i < j < |fields| ensures AsListed(fields)(fields[i].key, fields[j].key) {
      IndexOf(fields, i);
      IndexOf(fields, j);
    }
  }

  /** A sort leaves keys that tie in the order in which they were. */
  lemma TieKeepsOrder(p: Order, fields: seq<Field>, k: string, l: string)
    requires IsOrder(p) && DistinctKeys(fields) && Before(fields, k, l) && p(k, l) && p(l, k)
    ensures Before(SortBy(p, fields), k, l)
  {
    ListedIsSorted(fields);
    SortIsStable(p, AsListed(fields), fields);
    SortElements(p, fields);
    var sorted := SortBy(p, fields);
    HasIndex(sorted, fields[KeyIndex(fields, k)]);
    HasIndex(sorted, fields[KeyIndex(fields, l)]);
  }

  lemma HasIndex(fields: seq<Field>, f: Field)
    requires f in fields
    ensures KeyIndex(fields, f.key) < |fields|
  {
    var i :| 0 <= i < |fields| && fields[i] == f;
  }

  lemma {:induction false} SortValuesIndex(collate: Order, fields: seq<Field>, k: string)
    ensures KeyIndex(SortValues(collate, fields), k) == KeyIndex(fields, k)
  {
    if fields != [] {
      SortValuesIndex(collate, fields[1..], k);
    }
  }

  /** So the arranged object follows the original order of two keys that tie. */
  lemma TieShows(collate: Order, fields: seq<Field>, k: string, l: string)
    requires IsOrder(collate) && DistinctKeys(fields) && Before(fields, k, l) && Ties(collate, k, l)
    ensures Before(Arrange(collate, SortValues(collate, fields)), k, l)
  {
    var values := SortValues(collate, fields);
    SortValuesElements(collate, fields);
    SortValuesIndex(collate, fields, k);
    SortValuesIndex(collate, fields, l);
    SortElements(collate, values);
    TieKeepsOrder(collate, values, k, l);
    ArrangeSorts(collate, values);
    TieKeepsOrder(OwnKeyOrder(), SortBy(collate, values), k, l);
  }

  function Swapped(fields: seq<Field>, i: nat, j: nat): seq<Field>
    requires i < j < |fields|
  {
    fields[i := fields[j]][j := fields[i]]
  }

  lemma SwapKeepsFields(fields: seq<Field>, i: nat, j: nat)
    requires i < j < |fields| && DistinctKeys(fields)
    ensures DistinctKeys(Swapped(fields, i, j)) && SameElements(Swapped(fields, i, j), fields)
  {
    var gs := Swapped(fields, i, j);
    forall f ensures f in gs <==> f in fields {
      if f in fields {
        var n :| 0 <= n < |fields| && fields[n] == f;
        assert f == gs[if n == i then j else if n == j then i else n];
      }
    }
  }

  lemma IndexOf(fields: seq<Field>, i: nat)
    requires i < |fields| && DistinctKeys(fields)
    ensures KeyIndex(fields, fields[i].key) == i
  {
  }

  lemma SwapOrders(fields: seq<Field>, i: nat, j: nat)
    requires i < j < |fields| && DistinctKeys(fields) && DistinctKeys(Swapped(fields, i, j))
    ensures Before(fields, fields[i].key, fields[j].key)
    ensures Before(Swapped(fields, i, j), fields[j].key, fields[i].key)
  {
    var gs := Swapped(fields, i, j);
    IndexOf(fields, i);
    IndexOf(fields, j);
    IndexOf(gs, i);
    IndexOf(gs, j);
  }

  lemma SwapIsSame(fields: seq<Field>, gs: seq<Field>)
    requires SameElements(gs, fields)
    ensures Same(Obj(fields), Obj(gs))
  {
    forall f | f in fields ensures HasSame(f, gs) {
      SameReflexive(f.value);
    }
    assert Keys(fields) == Keys(gs);
  }

  /** An object with two keys that tie has a twin that sorts differently: the two fields swapped. */
  lemma SwappedTwin(collate: Order, fields: seq<Field>, i: nat, j: nat)
    requires IsOrder(collate) && WellFormed(Obj(fields))
    requires i < j < |fields| && Ties(collate, fields[i].key, fields[j].key)
    ensures var b := Obj(Swapped(fields, i, j));
            WellFormed(b) && Same(Obj(fields), b) && SortObject(collate, Obj(fields)) != SortObject(collate, b)
  {
    var gs, k, l := Swapped(fields, i, j), fields[i].key, fields[j].key;
    SwapKeepsFields(fields, i, j);
    SwapIsSame(fields, gs);
    SwapOrders(fields, i, j);
    TieShows(collate, fields, k, l);
    TieShows(collate, gs, l, k);
  }

  /** A twin of one item is a twin of the array. */
  lemma ItemTwin(collate: Order, items: seq<Json>, i: nat, twin: Json)
    requires i < |items| && WellFormed(Arr(items)) && WellFormed(twin)
    requires Same(items[i], twin) && SortObject(collate, items[i]) != SortObject(collate, twin)
    ensures var b := Arr(items[i := twin]);
            WellFormed(b) && Same(Arr(items), b) && SortObject(collate, Arr(items)) != SortObject(collate, b)
  {
    var ys := items[i := twin];
    forall n | 0 <= n < |items| ensures Same(items[n], ys[n]) {
      SameReflexive(items[n]);
    }
    SortItemsAt(collate, items, i);
    SortItemsAt(collate, ys, i);
  }

  lemma AlikeValue(collate: Order, fs: seq<Field>, gs: seq<Field>, i: nat)
    requires IsOrder(collate) && SortObject(collate, Obj(fs)) == SortObject(collate, Obj(gs))
    requires i < |fs| && i < |gs| && fs[i].key == gs[i].key && DistinctKeys(gs)
    ensures SortObject(collate, fs[i].value) == SortObject(collate, gs[i].value)
  {
    ArrangedAlikeMatches(collate, fs, gs);
    assert fs[i] in fs;
    var g :| g in gs && SortField(collate, g) == SortField(collate, fs[i]);
  }

  /** A twin of one field's value is a twin of the object. */
  lemma ValueTwin(collate: Order, fields: seq<Field>, i: nat, twin: Json)
    requires IsOrder(collate) && i < |fields| && WellFormed(Obj(fields)) && WellFormed(twin)
    requires Same(fields[i].value, twin) && SortObject(collate, fields[i].value) != SortObject(collate, twin)
    ensures var b := Obj(fields[i := Field(fields[i].key, twin)]);
            WellFormed(b) && Same(Obj(fields), b) && SortObject(collate, Obj(fields)) != SortObject(collate, b)
  {
    var gs := fields[i := Field(fields[i].key, twin)];
    forall n | 0 <= n < |fields| ensures gs[n].key == fields[n].key && Same(fields[n].value, gs[n].value) {
      SameReflexive(fields[n].value);
    }
    FieldwiseSame(fields, gs);
    if SortObject(collate, Obj(fields)) == SortObject(collate, Obj(gs)) {
      AlikeValue(collate, fields, gs, i);
    }
  }

  lemma FieldwiseSame(fs: seq<Field>, gs: seq<Field>)
    requires |fs| == |gs|
    requires forall n :: 0 <= n < |fs| ==> gs[n].key == fs[n].key && Same(fs[n].value, gs[n].value)
    ensures Same(Obj(fs), Obj(gs))
  {
    forall f | f in fs ensures HasSame(f, gs) {
      var n :| 0 <= n < |fs| && fs[n] == f;
      assert gs[n] in gs;
    }
    forall g | g in gs ensures g.key in Keys(fs) {
      var n :| 0 <= n < |gs| && gs[n] == g;
      assert fs[n] in fs;
    }
  }

  lemma TiePositions(collate: Order, fields: seq<Field>) returns (i: nat, j: nat)
    requires !NoTies(collate, fields)
    ensures i < j < |fields| && Ties(collate, fields[i].key, fields[j].key)
  {
    var f, g :| f in fields && g in fields && Ties(collate, f.key, g.key);
    var m :| 0 <= m < |fields| && fields[m] == f;
    var n :| 0 <= n < |fields| && fields[n] == g;
    i, j := if m < n then m else n, if m < n then n else m;
  }

  /** A value with a tie somewhere inside has a twin that differs only in key order and sorts differently. */
  lemma {:induction false} TiedHasTwin(collate: Order, a: Json) returns (b: Json)
    requires IsOrder(collate) && WellFormed(a) && !Untied(collate, a)
    ensures WellFormed(b) && Same(a, b) && SortObject(collate, a) != SortObject(collate, b)
    decreases a
  {
    match a
    case Arr(items) =>
      var i :| 0 <= i < |items| && !Untied(collate, items[i]);
      var twin := TiedHasTwin(collate, items[i]);
      ItemTwin(collate, items, i, twin);
      b := Arr(items[i := twin]);
    case Obj(fields) =>
      if NoTies(collate, fields) {
        var i :| 0 <= i < |fields| && !Untied(collate, fields[i].value);
        var twin := TiedHasTwin(collate, fields[i].value);
        ValueTwin(collate, fields, i, twin);
        b := Obj(fields[i := Field(fields[i].key, twin)]);
      } else {
        var i, j := TiePositions(collate, fields);
        SwappedTwin(collate, fields, i, j);
        b := Obj(Swapped(fields, i, j));
      }
  }
}
