/**
 * The text `JSON.stringify` gives a value, and the proof that no two values share
 * one; with it, `stableStringify` as the test of equality behind `ifChanged`.
 */
module JsonText {
  import opened StableJson

  // ------------------------------------------------------------ strings

  function Hex(n: int): char
    requires 0 <= n < 16
  {
    if n < 10 then ('0' as int + n) as char else ('a' as int + n - 10) as char
  }

  function HexValue(c: char): int {
    if c <= '9' then c as int - '0' as int else c as int - 'a' as int + 10
  }

  function Escape(c: char): string {
    if c == '"' then ['\\', '"']
    else if c == '\\' then ['\\', '\\']
    else if c == '\U{8}' then ['\\', 'b']
    else if c == '\U{C}' then ['\\', 'f']
    else if c == '\n' then ['\\', 'n']
    else if c == '\r' then ['\\', 'r']
    else if c == '\t' then ['\\', 't']
    else if c < ' ' then ['\\', 'u', '0', '0', Hex(c as int / 16), Hex(c as int % 16)]
    else [c]
  }

  /** The character an escaped text starts with, and how long its escape is. */
  function Unescape(s: string): (char, nat) {
    if s == "" then (' ', 0)
    else if s[0] != '\\' || |s| < 2 then (s[0], 1)
    else if s[1] == 'b' then ('\U{8}', 2)
    else if s[1] == 'f' then ('\U{C}', 2)
    else if s[1] == 'n' then ('\n', 2)
    else if s[1] == 'r' then ('\r', 2)
    else if s[1] == 't' then ('\t', 2)
    else if s[1] == 'u' && |s| >= 6 then
      var n := 16 * HexValue(s[4]) + HexValue(s[5]);
      (if 0 <= n < 128 then n as char else ' ', 6)
    else (s[1], 2)
  }

  lemma UnescapeEscape(c: char, rest: string)
    ensures Unescape(Escape(c) + rest) == (c, |Escape(c)|)
  {
    var s := Escape(c) + rest;
    assert forall i :: 0 <= i < |Escape(c)| ==> s[i] == Escape(c)[i];
  }

  lemma EscapeUnique(c: char, x: string, d: char, y: string)
    requires Escape(c) + x == Escape(d) + y
    ensures c == d && x == y
  {
    UnescapeEscape(c, x);
    UnescapeEscape(d, y);
    assert (Escape(c) + x)[|Escape(c)|..] == x;
    assert (Escape(d) + y)[|Escape(d)|..] == y;
  }

  /** A string's text after its opening quote. */
  function Quoted(s: string): string {
    if s == "" then "\"" else Escape(s[0]) + Quoted(s[1..])
  }

  lemma Cancel(p: string, x: string, y: string)
    requires p + x == p + y
    ensures x == y
  {
    assert (p + x)[|p|..] == x && (p + y)[|p|..] == y;
  }

  lemma CancelHead(p: string, a: string, x: string, b: string, y: string)
    requires (p + a) + x == (p + b) + y
    ensures a + x == b + y
  {
    assert (p + a) + x == p + (a + x) && (p + b) + y == p + (b + y);
    Cancel(p, a + x, b + y);
  }

  lemma QuotedStart(s: string, x: string)
    ensures |Quoted(s) + x| > 0 && ((Quoted(s) + x)[0] == '"' <==> s == "")
  {
  }

  lemma {:induction false} QuotedUnique(s: string, x: string, t: string, y: string)
    requires Quoted(s) + x == Quoted(t) + y
    ensures s == t && x == y
  {
    QuotedStart(s, x);
    QuotedStart(t, y);
    if s == "" {
      Cancel("\"", x, y);
    } else {
      QuotedStep(s, x);
      QuotedStep(t, y);
      EscapeUnique(s[0], Quoted(s[1..]) + x, t[0], Quoted(t[1..]) + y);
      QuotedUnique(s[1..], x, t[1..], y);
      assert s == [s[0]] + s[1..] && t == [t[0]] + t[1..];
    }
  }

  lemma QuotedStep(s: string, x: string)
    requires s != ""
    ensures Quoted(s) + x == Escape(s[0]) + (Quoted(s[1..]) + x)
  {
  }

  // ------------------------------------------------------------- values

  function Stringify(v: Json): string
    decreases v, 1
  {
    match v
    case Null => "null"
    case Bool(b) => if b then "true" else "false"
    case Num(text) => text
    case Str(s) => "\"" + Quoted(s)
    case Arr(items) => "[" + ItemsText(items, true)
    case Obj(fields) => "{" + FieldsText(fields, true)
  }

  /** The items from here to the closing bracket. */
  function ItemsText(items: seq<Json>, first: bool): string
    decreases items, 0
  {
    if items == [] then "]"
    else (if first then "" else ",") + Stringify(items[0]) + ItemsText(items[1..], false)
  }

  /** The fields from here to the closing brace. */
  function FieldsText(fields: seq<Field>, first: bool): string
    decreases fields, 0
  {
    if fields == [] then "}"
    else
      (if first then "" else ",") + "\"" + Quoted(fields[0].key) + ":" + Stringify(fields[0].value)
      + FieldsText(fields[1..], false)
  }

  /** What may follow a value. */
  predicate Ends(rest: string) {
    rest == "" || rest[0] == ',' || rest[0] == ']' || rest[0] == '}'
  }

  /** A tag for each kind of value, and the one its first character shows. */
  function Tag(v: Json): nat {
    match v
    case Null => 1
    case Bool(b) => if b then 2 else 3
    case Num(_) => 4
    case Str(_) => 5
    case Arr(_) => 6
    case Obj(_) => 7
  }

  function TagAt(c: char): nat {
    if c == 'n' then 1
    else if c == 't' then 2
    else if c == 'f' then 3
    else if IsNumChar(c) then 4
    else if c == '"' then 5
    else if c == '[' then 6
    else if c == '{' then 7
    else 0
  }

  lemma FirstChar(v: Json)
    requires WellFormed(v)
    ensures Stringify(v) != "" && TagAt(Stringify(v)[0]) == Tag(v) > 0
  {
    if v.Num? {
      assert v.text[0] in v.text;
    }
  }

  lemma NumUnique(a: string, x: string, b: string, y: string)
    requires (forall c :: c in a ==> IsNumChar(c)) && (forall c :: c in b ==> IsNumChar(c))
    requires Ends(x) && Ends(y) && a + x == b + y
    ensures a == b && x == y
  {
    var s := a + x;
    assert forall i :: 0 <= i < |a| ==> IsNumChar(s[i]);
    assert forall i :: 0 <= i < |b| ==> IsNumChar((b + y)[i]);
    assert |a| < |s| ==> s[|a|] == x[0];
    assert |b| < |s| ==> (b + y)[|b|] == y[0];
    assert s[..|a|] == a && s[|a|..] == x;
    assert (b + y)[..|b|] == b && (b + y)[|b|..] == y;
  }

  lemma ItemsStart(items: seq<Json>, x: string, first: bool)
    requires forall v :: v in items ==> WellFormed(v)
    ensures |ItemsText(items, first) + x| > 0 && ((ItemsText(items, first) + x)[0] == ']' <==> items == [])
    ensures !first ==> Ends(ItemsText(items, first) + x)
  {
    if items != [] {
      FirstChar(items[0]);
    }
  }

  lemma ItemsStep(items: seq<Json>, x: string, first: bool)
    requires items != []
    ensures ItemsText(items, first) + x ==
              (if first then "" else ",") + (Stringify(items[0]) + (ItemsText(items[1..], false) + x))
  {
  }

  lemma FieldsStart(fields: seq<Field>, x: string, first: bool)
    ensures |FieldsText(fields, first) + x| > 0 && ((FieldsText(fields, first) + x)[0] == '}' <==> fields == [])
    ensures !first ==> Ends(FieldsText(fields, first) + x)
  {
  }

  lemma FieldsStep(fields: seq<Field>, x: string, first: bool)
    requires fields != []
    ensures FieldsText(fields, first) + x ==
              (if first then "" else ",") + "\"" +
              (Quoted(fields[0].key) + (":" + (Stringify(fields[0].value) + (FieldsText(fields[1..], false) + x))))
  {
  }

  /** A value is determined by any text that starts with its text and goes on as a document may. */
  lemma {:induction false} ValueUnique(v: Json, x: string, w: Json, y: string)
    requires WellFormed(v) && WellFormed(w) && Ends(x) && Ends(y)
    requires Stringify(v) + x == Stringify(w) + y
    ensures v == w && x == y
    decreases v, 1
  {
    FirstChar(v);
    FirstChar(w);
    assert (Stringify(v) + x)[0] == Stringify(v)[0] && (Stringify(w) + y)[0] == Stringify(w)[0];
    match v
    case Num(text) => NumUnique(text, x, w.text, y);
    case Str(s) =>
      CancelHead("\"", Quoted(s), x, Quoted(w.s), y);
      QuotedUnique(s, x, w.s, y);
    case Arr(items) =>
      CancelHead("[", ItemsText(items, true), x, ItemsText(w.items, true), y);
      ItemsUnique(items, x, w.items, y, true);
    case Obj(fields) =>
      CancelHead("{", FieldsText(fields, true), x, FieldsText(w.fields, true), y);
      FieldsUnique(fields, x, w.fields, y, true);
    case _ =>
      Cancel(Stringify(v), x, y);
  }

  lemma {:induction false} ItemsUnique(vs: seq<Json>, x: string, ws: seq<Json>, y: string, first: bool)
    requires (forall v :: v in vs ==> WellFormed(v)) && (forall w :: w in ws ==> WellFormed(w))
    requires ItemsText(vs, first) + x == ItemsText(ws, first) + y
    ensures vs == ws && x == y
    decreases vs, 0
  {
    ItemsStart(vs, x, first);
    ItemsStart(ws, y, first);
    if vs == [] {
      Cancel("]", x, y);
    } else {
      ItemsStep(vs, x, first);
      ItemsStep(ws, y, first);
      var x', y' := ItemsText(vs[1..], false) + x, ItemsText(ws[1..], false) + y;
      Cancel(if first then "" else ",", Stringify(vs[0]) + x', Stringify(ws[0]) + y');
      ItemsStart(vs[1..], x, false);
      ItemsStart(ws[1..], y, false);
      ValueUnique(vs[0], x', ws[0], y');
      ItemsUnique(vs[1..], x, ws[1..], y, false);
      assert vs == [vs[0]] + vs[1..] && ws == [ws[0]] + ws[1..];
    }
  }

  lemma {:induction false} FieldsUnique(fs: seq<Field>, x: string, gs: seq<Field>, y: string, first: bool)
    requires (forall f :: f in fs ==> WellFormed(f.value)) && (forall g :: g in gs ==> WellFormed(g.value))
    requires FieldsText(fs, first) + x == FieldsText(gs, first) + y
    ensures fs == gs && x == y
    decreases fs, 0
  {
    FieldsStart(fs, x, first);
    FieldsStart(gs, y, first);
    if fs == [] {
      Cancel("}", x, y);
    } else {
      FieldsStep(fs, x, first);
      FieldsStep(gs, y, first);
      var f, g := fs[0], gs[0];
      var x', y' := FieldsText(fs[1..], false) + x, FieldsText(gs[1..], false) + y;
      var u, w := ":" + (Stringify(f.value) + x'), ":" + (Stringify(g.value) + y');
      Cancel((if first then "" else ",") + "\"", Quoted(f.key) + u, Quoted(g.key) + w);
      QuotedUnique(f.key, u, g.key, w);
      Cancel(":", Stringify(f.value) + x', Stringify(g.value) + y');
      FieldsStart(fs[1..], x, false);
      FieldsStart(gs[1..], y, false);
      ValueUnique(f.value, x', g.value, y');
      FieldsUnique(fs[1..], x, gs[1..], y, false);
      assert fs == [fs[0]] + fs[1..] && gs == [gs[0]] + gs[1..];
    }
  }

  /** Different values have different texts. */
  lemma StringifyInjective(v: Json, w: Json)
    requires WellFormed(v) && WellFormed(w) && Stringify(v) == Stringify(w)
    ensures v == w
  {
    assert Stringify(v) + "" == Stringify(w) + "";
    ValueUnique(v, "", w, "");
  }

  lemma {:induction false} SortKeepsWellFormed(collate: Order, v: Json)
    requires IsOrder(collate) && WellFormed(v)
    ensures WellFormed(SortObject(collate, v))
    decreases v
  {
    match v
    case Arr(items) =>
      forall i | 0 <= i < |items| ensures WellFormed(SortItems(collate, items)[i]) {
        SortKeepsWellFormed(collate, items[i]);
        SortItemsAt(collate, items, i);
      }
    case Obj(fields) =>
      SortValuesElements(collate, fields);
      ArrangeSorts(collate, SortValues(collate, fields));
      forall x | x in SortValues(collate, fields) ensures WellFormed(x.value) {
        var f :| f in fields && SortField(collate, f) == x;
        SortKeepsWellFormed(collate, f.value);
      }
    case _ =>
  }

  // ------------------------------------------------------- stableStringify

  function StableStringify(collate: Order, v: Json): string {
    Stringify(SortObject(collate, v))
  }

  /** The stable texts of `a` and `b` agree iff `a` and `b` differ only in the order of object keys. */
  ghost predicate CanonicalOn(collate: Order, a: Json, b: Json) {
    WellFormed(a) && WellFormed(b) ==> (StableStringify(collate, a) == StableStringify(collate, b) <==> Same(a, b))
  }

  /**
   * Two values get the same stable text iff they differ only in the order of object
   * keys, as long as no object inside one of them has two keys that the collation ties.
   */
  lemma StableTextIsCanonical(collate: Order, a: Json, b: Json)
    requires IsOrder(collate) && Untied(collate, a) && WellFormed(a) && WellFormed(b)
    ensures CanonicalOn(collate, a, b)
  {
    if Same(a, b) {
      SameSortsAlike(collate, a, b);
    }
    if StableStringify(collate, a) == StableStringify(collate, b) {
      EqualTextIsSame(collate, a, b);
    }
  }

  /** Whatever the collation ties, equal stable texts mean equal values up to key order. */
  lemma EqualTextIsSame(collate: Order, a: Json, b: Json)
    requires IsOrder(collate) && WellFormed(a) && WellFormed(b)
    requires StableStringify(collate, a) == StableStringify(collate, b)
    ensures Same(a, b)
  {
    SortKeepsWellFormed(collate, a);
    SortKeepsWellFormed(collate, b);
    StringifyInjective(SortObject(collate, a), SortObject(collate, b));
    AlikeIsSame(collate, a, b);
  }

  /** An object of two fields and the same fields the other way round. */
  function PairOf(k: string, l: string): Json {
    Obj([Field(k, Null), Field(l, Null)])
  }

  lemma PairsAreSame(k: string, l: string)
    requires k != l
    ensures WellFormed(PairOf(k, l)) && WellFormed(PairOf(l, k)) && Same(PairOf(k, l), PairOf(l, k))
  {
    var fs, gs := PairOf(k, l).fields, PairOf(l, k).fields;
    assert Keys(fs) == {k, l} == Keys(gs) by {
      assert fs[0] in fs && fs[1] in fs && gs[0] in gs && gs[1] in gs;
    }
    assert fs[0] == gs[1] && fs[1] == gs[0];
  }

  /** Two keys the collation cannot tell apart spoil it: the texts follow the order of the fields. */
  lemma TieSpoilsCanonical(collate: Order, k: string, l: string)
    requires Ties(collate, k, l)
    ensures WellFormed(PairOf(k, l)) && WellFormed(PairOf(l, k)) && Same(PairOf(k, l), PairOf(l, k))
    ensures StableStringify(collate, PairOf(k, l)) != StableStringify(collate, PairOf(l, k))
  {
    PairsAreSame(k, l);
    SortPair(collate, k, l);
    SortPair(collate, l, k);
    assert PairOf(k, l).fields[0] != PairOf(l, k).fields[0];
    if Stringify(PairOf(k, l)) == Stringify(PairOf(l, k)) {
      StringifyInjective(PairOf(k, l), PairOf(l, k));
    }
  }

  lemma SortPair(collate: Order, k: string, l: string)
    requires !IsIndex(k) && !IsIndex(l) && collate(k, l)
    ensures SortObject(collate, PairOf(k, l)) == PairOf(k, l)
  {
    var f, g := Field(k, Null), Field(l, Null);
    assert [f, g][1..] == [g] && [g][1..] == [];
    assert SortValues(collate, [g]) == [g];
    assert SortValues(collate, [f, g]) == [f] + SortValues(collate, [g]);
    SortedPair(collate, f, g);
    SortedPair(OwnKeyOrder(), f, g);
  }

  lemma SortedPair(leq: Order, f: Field, g: Field)
    requires leq(f.key, g.key)
    ensures SortBy(leq, [f, g]) == [f, g]
  {
    assert [f, g][1..] == [g] && [g][1..] == [];
    assert SortBy(leq, [g]) == Insert(leq, g, SortBy(leq, []));
    assert SortBy(leq, [f, g]) == Insert(leq, f, SortBy(leq, [g]));
  }

  /** `b` differs from `a` only in key order and yet has another stable text. */
  ghost predicate SpoiltBy(collate: Order, a: Json, b: Json) {
    WellFormed(b) && Same(a, b) && StableStringify(collate, a) != StableStringify(collate, b)
  }

  /**
   * The exact condition, value by value: no reordering of keys changes the stable text of `a`
   * iff no object inside `a` has two keys that the collation ties.
   */
  lemma CanonicalIffUntied(collate: Order, a: Json)
    requires IsOrder(collate) && WellFormed(a)
    ensures Untied(collate, a) <==> forall b :: !SpoiltBy(collate, a, b)
  {
    if Untied(collate, a) {
      forall b ensures !SpoiltBy(collate, a, b) {
        if WellFormed(b) {
          StableTextIsCanonical(collate, a, b);
        }
      }
    } else {
      var b := TiedHasTwin(collate, a);
      SortKeepsWellFormed(collate, a);
      SortKeepsWellFormed(collate, b);
      if StableStringify(collate, a) == StableStringify(collate, b) {
        StringifyInjective(SortObject(collate, a), SortObject(collate, b));
      }
      assert SpoiltBy(collate, a, b);
    }
  }
}
