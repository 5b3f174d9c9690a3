/** Splitting and joining text at a separator, as `split` and `join` do. */
module Text {
  /** The position of the first `sep` in `s`, or its length. */
  function Find(s: string, sep: char): (i: nat)
    ensures i <= |s|
    ensures i < |s| ==> s[i] == sep
    ensures forall j :: 0 <= j < i ==> s[j] != sep
  {
    if s == [] || s[0] == sep then 0 else 1 + Find(s[1..], sep)
  }

  /** The pieces of `s` between separators; always at least one. */
  function Split(s: string, sep: char): (parts: seq<string>)
    ensures parts != []
    ensures forall p :: p in parts ==> sep !in p
    decreases |s|
  {
    var i := Find(s, sep);
    if i == |s| then [s] else [s[..i]] + Split(s[i + 1..], sep)
  }

  function Join(parts: seq<string>, sep: char): string
    requires parts != []
  {
    if |parts| == 1 then parts[0] else parts[0] + [sep] + Join(parts[1..], sep)
  }

  lemma {:induction false} JoinSplit(s: string, sep: char)
    ensures Join(Split(s, sep), sep) == s
    decreases |s|
  {
    var i := Find(s, sep);
    if i < |s| {
      JoinSplit(s[i + 1..], sep);
      assert Split(s, sep)[1..] == Split(s[i + 1..], sep);
      assert s == s[..i] + [sep] + s[i + 1..];
    }
  }

  lemma {:induction false} SplitJoin(parts: seq<string>, sep: char)
    requires parts != [] && forall p :: p in parts ==> sep !in p
    ensures Split(Join(parts, sep), sep) == parts
  {
    var head := parts[0];
    if |parts| == 1 {
      FindAfter(head, [], sep);
      assert head + [] == head;
    } else {
      var rest := Join(parts[1..], sep);
      var s := head + [sep] + rest;
      FindAfter(head, [sep] + rest, sep);
      assert s == head + ([sep] + rest);
      assert s[..|head|] == head && s[|head| + 1..] == rest;
      SplitJoin(parts[1..], sep);
      assert parts == [head] + parts[1..];
    }
  }

  lemma FindAfter(head: string, tail: string, sep: char)
    requires sep !in head && (tail != [] ==> tail[0] == sep)
    ensures Find(head + tail, sep) == |head|
  {
    var s := head + tail;
    assert forall j :: 0 <= j < |head| ==> s[j] == head[j];
    assert |head| < |s| ==> s[|head|] == sep;
  }

  lemma JoinInjective(a: seq<string>, b: seq<string>, sep: char)
    requires a != [] && b != [] && (forall p :: p in a ==> sep !in p) && (forall p :: p in b ==> sep !in p)
    requires Join(a, sep) == Join(b, sep)
    ensures a == b
  {
    SplitJoin(a, sep);
    SplitJoin(b, sep);
  }

  // -------------------------------------------------------- decimal digits

  function Digit(n: int): char
    requires 0 <= n < 10
  {
    ('0' as int + n) as char
  }

  function Decimal(n: nat): string {
    if n < 10 then [Digit(n)] else Decimal(n / 10) + [Digit(n % 10)]
  }

  function ZeroPad(s: string, width: nat): string
    decreases width - |s|
  {
    if |s| >= width then s else ZeroPad("0" + s, width)
  }

  predicate IsDigit(c: char) {
    '0' <= c <= '9'
  }

  function DigitValue(c: char): int {
    c as int - '0' as int
  }

  lemma {:induction false} PadKeepsLast(s: string, c: char, width: nat)
    requires width > 0
    ensures ZeroPad(s + [c], width) == ZeroPad(s, width - 1) + [c]
    decreases width - |s|
  {
    if |s| + 1 < width {
      assert "0" + (s + [c]) == ("0" + s) + [c];
      PadKeepsLast("0" + s, c, width);
    }
  }

  /** The number a text of digits denotes. */
  function NumberOf(s: string): int {
    if s == [] then 0 else 10 * NumberOf(s[..|s| - 1]) + DigitValue(s[|s| - 1])
  }

  lemma {:induction false} DecimalDenotes(n: nat)
    ensures NumberOf(Decimal(n)) == n && forall c :: c in Decimal(n) ==> IsDigit(c)
  {
    if n >= 10 {
      DecimalDenotes(n / 10);
      assert Decimal(n)[..|Decimal(n)| - 1] == Decimal(n / 10);
    } else {
      assert Decimal(n)[..0] == "";
    }
  }

  lemma {:induction false} LeadingZero(s: string)
    ensures NumberOf("0" + s) == NumberOf(s)
  {
    if s == [] {
      assert ("0" + s)[..0] == "";
    } else {
      var t := s[..|s| - 1];
      assert ("0" + s)[..|s|] == "0" + t;
      LeadingZero(t);
    }
  }

  lemma {:induction false} PadDenotes(s: string, width: nat)
    requires forall c :: c in s ==> IsDigit(c)
    ensures NumberOf(ZeroPad(s, width)) == NumberOf(s)
    ensures forall c :: c in ZeroPad(s, width) ==> IsDigit(c)
    decreases width - |s|
  {
    if |s| < width {
      LeadingZero(s);
      PadDenotes("0" + s, width);
    }
  }

  /** A text of digits without leading zeros is the decimal text of its number. */
  lemma {:induction false} CanonicalDecimal(s: string)
    requires s != "" && (forall c :: c in s ==> IsDigit(c)) && (s[0] == '0' ==> s == "0")
    ensures 0 <= NumberOf(s) && Decimal(NumberOf(s)) == s
    ensures s != "0" ==> NumberOf(s) > 0
  {
    var n := |s| - 1;
    var front, d := s[..n], DigitValue(s[n]);
    assert s == front + [s[n]] && IsDigit(s[n]);
    assert Digit(d) == s[n];
    if n > 0 {
      assert front[0] == s[0];
      CanonicalDecimal(front);
      var k := NumberOf(front);
      assert NumberOf(s) == 10 * k + d && (10 * k + d) / 10 == k && (10 * k + d) % 10 == d;
    }
  }
}
