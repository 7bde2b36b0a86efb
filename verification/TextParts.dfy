/** Character order, decimal numerals, separated strings and trimming. */
module TextParts {
  /** After a common prefix, a ends or has the smaller character. */
  ghost predicate LexicallyBelow(a: string, b: string) {
    exists k: nat ::
      && k <= |a| && k < |b| && a[..k] == b[..k]
      && (k == |a| || a[k] < b[k])
  }

  predicate Precedes(a: string, b: string) {
    b != "" && (a == "" || a[0] < b[0] || (a[0] == b[0] && Precedes(a[1..], b[1..])))
  }

  lemma {:induction false} PrecedesOrders(a: string, b: string, c: string)
    ensures !Precedes(a, a)
    ensures a != b ==> (Precedes(a, b) <==> !Precedes(b, a))
    ensures Precedes(a, b) && Precedes(b, c) ==> Precedes(a, c)
    decreases |a| + |b|
  {
    if a != "" {
      PrecedesOrders(a[1..], if b == "" then "" else b[1..], if c == "" then "" else c[1..]);
      if b != "" && a[0] == b[0] {
        assert a == [a[0]] + a[1..] && b == [b[0]] + b[1..];
      }
    }
  }

  lemma BelowCons(a: string, b: string)
    requires a != [] && b != [] && a[0] == b[0]
    ensures LexicallyBelow(a, b) <==> LexicallyBelow(a[1..], b[1..])
  {
    if LexicallyBelow(a, b) { BelowTail(a, b); }
    if LexicallyBelow(a[1..], b[1..]) { BelowWhole(a, b); }
  }

  lemma BelowTail(a: string, b: string)
    requires a != [] && b != [] && a[0] == b[0] && LexicallyBelow(a, b)
    ensures LexicallyBelow(a[1..], b[1..])
  {
    var k: nat :| k <= |a| && k < |b| && a[..k] == b[..k] && (k == |a| || a[k] < b[k]);
    assert a[1..][..k - 1] == a[..k][1..] && b[1..][..k - 1] == b[..k][1..];
  }

  lemma BelowWhole(a: string, b: string)
    requires a != [] && b != [] && a[0] == b[0] && LexicallyBelow(a[1..], b[1..])
    ensures LexicallyBelow(a, b)
  {
    var x, y := a[1..], b[1..];
    var k: nat :| k <= |x| && k < |y| && x[..k] == y[..k] && (k == |x| || x[k] < y[k]);
    assert a[..k + 1] == [a[0]] + x[..k] && b[..k + 1] == [b[0]] + y[..k];
  }

  /** Comparing from the front finds the first difference. */
  lemma {:induction false} PrecedesIff(a: string, b: string)
    ensures Precedes(a, b) <==> LexicallyBelow(a, b)
    decreases |a|
  {
    if a != "" && b != "" && a[0] == b[0] {
      PrecedesIff(a[1..], b[1..]);
      BelowCons(a, b);
    } else if Precedes(a, b) {
      assert a[..0] == b[..0];
    } else {
      assert forall k: nat | 0 < k <= |a| && k < |b| :: a[..k][0] == a[0] && b[..k][0] == b[0];
    }
  }

  // ---------- Numerals ----------

  predicate IsDigit(c: char) {
    '0' <= c <= '9'
  }

  predicate IsLetter(c: char) {
    'a' <= c <= 'z' || 'A' <= c <= 'Z'
  }

  // The pattern ^\d+$.
  predicate IsNumber(s: string) {
    s != "" && forall i | 0 <= i < |s| :: IsDigit(s[i])
  }

  predicate LeadingZero(s: string) {
    |s| > 1 && s[0] == '0'
  }

  function DigitValue(c: char): nat
    requires IsDigit(c)
  {
    c as int - '0' as int
  }

  function Decimal(s: string): nat
    requires forall i | 0 <= i < |s| :: IsDigit(s[i])
  {
    if s == "" then 0 else 10 * Decimal(s[..|s| - 1]) + DigitValue(s[|s| - 1])
  }

  function DigitChar(n: nat): char
    requires n < 10
  {
    ('0' as int + n) as char
  }

  function Print(n: nat): string {
    if n < 10 then [DigitChar(n)] else Print(n / 10) + [DigitChar(n % 10)]
  }

  /** A printed number reads back as itself, and carries no leading zero. */
  lemma {:induction false} PrintRoundTrip(n: nat)
    ensures IsNumber(Print(n)) && !LeadingZero(Print(n)) && Decimal(Print(n)) == n
    ensures n > 0 ==> Print(n)[0] != '0'
  {
    if n >= 10 {
      PrintRoundTrip(n / 10);
      var p := Print(n);
      assert p[..|p| - 1] == Print(n / 10);
      assert p[0] == Print(n / 10)[0];
    } else {
      assert Print(n)[..0] == "";
    }
  }

  lemma PrintDigit(front: nat, last: char)
    requires front > 0 && IsDigit(last)
    ensures Print(10 * front + DigitValue(last)) == Print(front) + [last]
  {
    hide Decimal;
    var n, d := 10 * front + DigitValue(last), DigitValue(last);
    TensAndUnits(front, d);
    assert DigitChar(d) == last;
  }

  lemma TensAndUnits(tens: nat, units: nat)
    requires units < 10
    ensures (10 * tens + units) / 10 == tens && (10 * tens + units) % 10 == units
  {
  }

  lemma OneDigit(c: char)
    requires IsDigit(c)
    ensures Decimal([c]) == DigitValue(c) && Print(DigitValue(c)) == [c]
  {
    assert [c][..0] == [];
    assert Decimal([c][..0]) == 0;
  }

  lemma DecimalDigit(front: string, last: char)
    requires IsNumber(front) && IsDigit(last)
    ensures IsNumber(front + [last]) && Decimal(front + [last]) == 10 * Decimal(front) + DigitValue(last)
  {
    assert (front + [last])[..|front|] == front;
  }

  // A numeral reads as a positive number that prints as the numeral.
  predicate Canonical(s: string) {
    IsNumber(s) && Decimal(s) > 0 && Print(Decimal(s)) == s
  }

  lemma CanonicalGrows(front: string, last: char)
    requires Canonical(front) && IsDigit(last)
    ensures Canonical(front + [last])
  {
    DecimalDigit(front, last);
    PrintDigit(Decimal(front), last);
    hide Decimal, Print, IsDigit;
  }

  lemma {:induction false} NoLeadingZeroIsCanonical(s: string)
    requires IsNumber(s) && s[0] != '0'
    ensures Canonical(s)
    decreases |s|
  {
    var front, last := s[..|s| - 1], s[|s| - 1];
    assert s == front + [last];
    if front != "" {
      assert front[0] == s[0] && IsNumber(front);
      hide Canonical;
      NoLeadingZeroIsCanonical(front);
      CanonicalGrows(front, last);
    } else {
      OneDigit(last);
      hide Decimal, Print;
      assert s == [last];
    }
  }

  /** A numeral without leading zeros prints as itself. */
  lemma DecimalRoundTrip(s: string)
    requires IsNumber(s) && !LeadingZero(s)
    ensures Print(Decimal(s)) == s
    ensures s[0] != '0' ==> Decimal(s) > 0
  {
    hide Decimal, Print;
    if s[0] != '0' {
      NoLeadingZeroIsCanonical(s);
    } else {
      assert s == [s[0]];
      OneDigit(s[0]);
    }
  }

  // ---------- Separators ----------

  // The first position of c, or the length.
  function Index(s: string, c: char): (i: nat)
    ensures i <= |s| && c !in s[..i] && (i < |s| ==> s[i] == c)
  {
    if s == "" || s[0] == c then 0
    else
      var i := 1 + Index(s[1..], c);
      assert s[..i] == [s[0]] + s[1..][..i - 1];
      i
  }

  function Split(s: string, c: char): (parts: seq<string>)
    ensures |parts| >= 1
    decreases |s|
  {
    var i := Index(s, c);
    if i == |s| then [s] else [s[..i]] + Split(s[i + 1..], c)
  }

  function Join(parts: seq<string>, c: char): string {
    if parts == [] then ""
    else if |parts| == 1 then parts[0]
    else parts[0] + [c] + Join(parts[1..], c)
  }

  lemma JoinThree(a: string, b: string, d: string, c: char)
    ensures Join([a, b, d], c) == a + [c] + (b + [c] + d)
  {
    assert [a, b, d][1..] == [b, d] && [b, d][1..] == [d];
    assert Join([b, d], c) == b + [c] + d;
  }

  lemma {:induction false} IndexAfter(x: string, y: string, c: char)
    requires c !in x
    ensures Index(x + [c] + y, c) == |x|
  {
    if x != "" {
      assert (x + [c] + y)[0] == x[0];
      assert (x + [c] + y)[1..] == x[1..] + [c] + y;
      IndexAfter(x[1..], y, c);
    }
  }

  lemma IndexNone(s: string, c: char)
    requires c !in s
    ensures Index(s, c) == |s|
  {
  }

  lemma SplitFirst(x: string, rest: string, c: char)
    requires c !in x
    ensures Split(x + [c] + rest, c) == [x] + Split(rest, c)
  {
    var s := x + [c] + rest;
    IndexAfter(x, rest, c);
    assert s[..|x|] == x && s[|x| + 1..] == rest;
  }

  lemma JoinHead(parts: seq<string>, c: char)
    requires |parts| > 1
    ensures Join(parts, c) == parts[0] + [c] + Join(parts[1..], c)
  {
  }

  /** Splitting what was joined gives the parts back. */
  lemma {:induction false} SplitJoin(parts: seq<string>, c: char)
    requires parts != [] && forall p | p in parts :: c !in p
    ensures Split(Join(parts, c), c) == parts
    decreases |parts|
  {
    if |parts| == 1 {
      SplitSingle(parts[0], c);
      assert parts == [parts[0]];
    } else {
      hide Split, Join;
      JoinHead(parts, c);
      SplitFirst(parts[0], Join(parts[1..], c), c);
      SplitJoin(parts[1..], c);
      assert parts == [parts[0]] + parts[1..];
    }
  }

  /** Joining what was split gives the string back; no part holds the separator. */
  lemma {:induction false} JoinSplit(s: string, c: char)
    ensures Join(Split(s, c), c) == s
    ensures forall p | p in Split(s, c) :: c !in p
    decreases |s|
  {
    var i := Index(s, c);
    if i < |s| {
      JoinSplit(s[i + 1..], c);
      assert s == s[..i] + [c] + s[i + 1..];
    }
  }

  // What stands before the first c.
  function Head(s: string, c: char): string {
    s[..Index(s, c)]
  }

  lemma SplitSingle(s: string, c: char)
    requires c !in s
    ensures Split(s, c) == [s] && Head(s, c) == s
  {
    IndexNone(s, c);
  }

  // ---------- Trimming ----------

  function TrimStart(s: string, p: char -> bool): string {
    if s != "" && p(s[0]) then TrimStart(s[1..], p) else s
  }

  function TrimEnd(s: string, p: char -> bool): string {
    if s != "" && p(s[|s| - 1]) then TrimEnd(s[..|s| - 1], p) else s
  }

  function Trim(s: string, p: char -> bool): string {
    TrimEnd(TrimStart(s, p), p)
  }

  lemma {:induction false} TrimStartDrops(s: string, p: char -> bool) returns (from: nat)
    ensures from <= |s| && TrimStart(s, p) == s[from..] && forall i | 0 <= i < from :: p(s[i])
    ensures from < |s| ==> !p(s[from])
  {
    from := 0;
    if s != "" && p(s[0]) {
      var rest := TrimStartDrops(s[1..], p);
      from := rest + 1;
      assert forall i | 0 < i < from :: s[i] == s[1..][i - 1];
    }
  }

  lemma {:induction false} TrimEndDrops(s: string, p: char -> bool) returns (to: nat)
    ensures to <= |s| && TrimEnd(s, p) == s[..to] && forall i | to <= i < |s| :: p(s[i])
    ensures to > 0 ==> !p(s[to - 1])
  {
    to := |s|;
    if s != "" && p(s[|s| - 1]) {
      to := TrimEndDrops(s[..|s| - 1], p);
    }
  }

  /** Trimming keeps what lies from the first to the last character that is not trimmed. */
  lemma TrimmedPart(s: string, p: char -> bool) returns (from: nat, to: nat)
    ensures from <= to <= |s| && Trim(s, p) == s[from..to]
    ensures forall i | 0 <= i < |s| && !p(s[i]) :: from <= i < to
    ensures from < to ==> !p(s[from]) && !p(s[to - 1])
  {
    from := TrimStartDrops(s, p);
    var length := TrimEndDrops(s[from..], p);
    to := from + length;
    assert forall i | from <= i < |s| :: s[from..][i - from] == s[i];
  }

  /** Nothing is left of a text after trimming exactly when all of it is trimmed away. */
  lemma TrimBlank(s: string, p: char -> bool)
    ensures Trim(s, p) == "" <==> forall i | 0 <= i < |s| :: p(s[i])
  {
    var from, to := TrimmedPart(s, p);
    hide Trim;
  }

  /** Trimming leaves a text as it is exactly when it neither starts nor ends with a character to trim. */
  lemma TrimFixedIff(s: string, p: char -> bool)
    ensures Trim(s, p) == s <==> s == "" || (!p(s[0]) && !p(s[|s| - 1]))
  {
    var from, to := TrimmedPart(s, p);
    hide Trim;
    assert |s[from..to]| == |s| ==> from == 0 && to == |s|;
  }
}
