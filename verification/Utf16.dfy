/** Strings compared by their UTF-16 code units (`compare_utf16`), the member order of RFC 8785. */
module Utf16 {
  import opened Wrappers

  datatype Ordering = Less | Equal | Greater

  function Units(c: char): seq<nat> {
    var n := c as int;
    if n < 0x10000 then [n]
    else [0xD800 + (n - 0x10000) / 0x400, 0xDC00 + (n - 0x10000) % 0x400]
  }

  function Encode(s: string): seq<nat> {
    if s == [] then [] else Units(s[0]) + Encode(s[1..])
  }

  function Flip(o: Ordering): Ordering {
    match o
    case Less => Greater
    case Equal => Equal
    case Greater => Less
  }

  function CompareUnits(a: seq<nat>, b: seq<nat>): Ordering {
    if a == [] && b == [] then Equal
    else if a == [] then Less
    else if b == [] then Greater
    else if a[0] < b[0] then Less
    else if a[0] > b[0] then Greater
    else CompareUnits(a[1..], b[1..])
  }

  function Compare(a: string, b: string): Ordering {
    CompareUnits(Encode(a), Encode(b))
  }

  predicate Before(a: string, b: string) {
    Compare(a, b) == Less
  }

  method CompareUtf16(left: string, right: string) returns (o: Ordering)
    ensures o == Compare(left, right)
  {
    var l, r := Encode(left), Encode(right);
    var i := 0;
    assert l[0..] == l && r[0..] == r;
    while true
      invariant 0 <= i <= |l| && i <= |r|
      invariant CompareUnits(l[i..], r[i..]) == Compare(left, right)
      decreases |l| - i
    {
      if i < |l| && i < |r| {
        assert l[i..][1..] == l[i + 1..] && r[i..][1..] == r[i + 1..];
        if l[i] < r[i] { return Less; }
        if l[i] > r[i] { return Greater; }
        i := i + 1;
      } else if i < |l| {
        return Greater;
      } else if i < |r| {
        return Less;
      } else {
        return Equal;
      }
    }
  }

  lemma UnitsPrefixFree(c: char, d: char, x: seq<nat>, y: seq<nat>)
    requires Units(c) + x == Units(d) + y
    ensures c == d && x == y
  {
    assert (Units(c) + x)[0] == Units(c)[0] && (Units(d) + y)[0] == Units(d)[0];
    if |Units(c)| == 2 && |Units(d)| == 2 {
      assert (Units(c) + x)[1] == Units(c)[1] && (Units(d) + y)[1] == Units(d)[1];
    }
    assert (Units(c) + x)[|Units(c)|..] == x && (Units(d) + y)[|Units(d)|..] == y;
  }

  /** Distinct strings have distinct encodings. */
  lemma {:induction false} EncodeInjective(a: string, b: string)
    requires Encode(a) == Encode(b)
    ensures a == b
    decreases |a|
  {
    if a != [] && b != [] {
      UnitsPrefixFree(a[0], b[0], Encode(a[1..]), Encode(b[1..]));
      EncodeInjective(a[1..], b[1..]);
      assert a == [a[0]] + a[1..] && b == [b[0]] + b[1..];
    }
  }

  lemma {:induction false} UnitsEqual(a: seq<nat>, b: seq<nat>)
    ensures CompareUnits(a, b) == Equal <==> a == b
    ensures CompareUnits(b, a) == Flip(CompareUnits(a, b))
  {
    if a != [] && b != [] && a[0] == b[0] {
      UnitsEqual(a[1..], b[1..]);
      assert a == [a[0]] + a[1..] && b == [b[0]] + b[1..];
    }
  }

  lemma {:induction false} UnitsTransitive(a: seq<nat>, b: seq<nat>, c: seq<nat>)
    requires CompareUnits(a, b) == Less && CompareUnits(b, c) == Less
    ensures CompareUnits(a, c) == Less
  {
    if a != [] && b != [] && c != [] && a[0] == b[0] == c[0] {
      UnitsTransitive(a[1..], b[1..], c[1..]);
    }
  }

  /** A strict total order on strings: Equal only on equal strings, antisymmetric and transitive. */
  lemma TotalOrder(a: string, b: string, c: string)
    ensures Compare(a, b) == Equal <==> a == b
    ensures Compare(b, a) == Flip(Compare(a, b))
    ensures Before(a, b) && Before(b, c) ==> Before(a, c)
  {
    UnitsEqual(Encode(a), Encode(b));
    if Encode(a) == Encode(b) { EncodeInjective(a, b); }
    if Before(a, b) && Before(b, c) { UnitsTransitive(Encode(a), Encode(b), Encode(c)); }
  }

  // ---------- What the encoding and the order are ----------

  /** Section 2.2 of RFC 2781: a unit outside D800..DFFF stands for itself, a high and a low surrogate for one
      supplementary code point; anything else is malformed. */
  function Decode(units: seq<nat>): Option<seq<nat>> {
    if units == [] then Some([])
    else
      var w1 := units[0];
      if w1 < 0xD800 || 0xDFFF < w1 then
        var rest := Decode(units[1..]);
        if rest.None? then None else Some([w1] + rest.value)
      else if 0xDBFF < w1 || |units| == 1 || !(0xDC00 <= units[1] <= 0xDFFF) then None
      else
        var rest := Decode(units[2..]);
        if rest.None? then None else Some([(w1 - 0xD800) * 0x400 + (units[1] - 0xDC00) + 0x10000] + rest.value)
  }

  function CodePoints(s: string): seq<nat> {
    seq(|s|, i requires 0 <= i < |s| => s[i] as nat)
  }

  lemma DecodeUnits(c: char, rest: seq<nat>)
    requires Decode(rest).Some?
    ensures Decode(Units(c) + rest) == Some([c as nat] + Decode(rest).value)
  {
    var n, u := c as int, Units(c);
    var all := u + rest;
    assert all[|u|..] == rest;
    assert all[0] == u[0];
    if n >= 0x10000 {
      assert all[1] == u[1];
      Surrogates(n);
    }
  }

  lemma Surrogates(n: nat)
    requires 0x10000 <= n < 0x110000
    ensures var high, low := 0xD800 + (n - 0x10000) / 0x400, 0xDC00 + (n - 0x10000) % 0x400;
      high <= 0xDBFF && 0xDC00 <= low <= 0xDFFF && (high - 0xD800) * 0x400 + (low - 0xDC00) + 0x10000 == n
  {
  }

  /** The units of a string are well formed and decode to its code points. */
  lemma {:induction false} EncodeDecodes(s: string)
    ensures Decode(Encode(s)) == Some(CodePoints(s))
    ensures forall i | 0 <= i < |Encode(s)| :: Encode(s)[i] < 0x10000
  {
    if s == "" {
      assert CodePoints(s) == [];
    } else {
      EncodeDecodes(s[1..]);
      var u, rest := Units(s[0]), Encode(s[1..]);
      assert (u + rest)[|u|..] == rest;
      DecodeUnits(s[0], rest);
      hide Decode;
      assert CodePoints(s) == [s[0] as nat] + CodePoints(s[1..]);
    }
  }

  /** After a common prefix, a ends or has the smaller unit. */
  ghost predicate UnitsBelow(a: seq<nat>, b: seq<nat>) {
    exists k: nat :: k <= |a| && k < |b| && a[..k] == b[..k] && (k == |a| || a[k] < b[k])
  }

  // Where two unit sequences first differ.
  lemma {:induction false} UnitsLess(a: seq<nat>, b: seq<nat>) returns (k: nat)
    requires CompareUnits(a, b) == Less
    ensures k <= |a| && k < |b| && a[..k] == b[..k] && (k == |a| || a[k] < b[k])
  {
    if a == [] || a[0] < b[0] {
      k := 0;
    } else {
      k := UnitsLess(a[1..], b[1..]);
      k := k + 1;
      assert a[..k] == [a[0]] + a[1..][..k - 1] && b[..k] == [b[0]] + b[1..][..k - 1];
    }
  }

  lemma {:induction false} UnitsLessAt(a: seq<nat>, b: seq<nat>, k: nat)
    requires k <= |a| && k < |b| && a[..k] == b[..k] && (k == |a| || a[k] < b[k])
    ensures CompareUnits(a, b) == Less
    decreases k
  {
    if k > 0 {
      assert a[0] == a[..k][0] == b[..k][0] == b[0];
      assert a[1..][..k - 1] == a[..k][1..] && b[1..][..k - 1] == b[..k][1..];
      UnitsLessAt(a[1..], b[1..], k - 1);
    }
  }

  /** One string comes before another exactly when its units do, the first difference deciding. */
  lemma BeforeIff(a: string, b: string)
    ensures Before(a, b) <==> UnitsBelow(Encode(a), Encode(b))
  {
    var x, y := Encode(a), Encode(b);
    hide Encode;
    if Before(a, b) { var k := UnitsLess(x, y); }
    if k: nat :| k <= |x| && k < |y| && x[..k] == y[..k] && (k == |x| || x[k] < y[k]) { UnitsLessAt(x, y, k); }
  }

  /** It is not the order of code points: a supplementary character sorts below U+E000. */
  lemma DiffersFromCodePoints()
    ensures Before("\U{10000}", "\U{E000}") && '\U{10000}' > '\U{E000}'
  {
    assert "\U{10000}"[1..] == [] && "\U{E000}"[1..] == [];
    assert Encode("\U{10000}") == [0xD800, 0xDC00];
    assert Encode("\U{E000}") == [0xE000];
  }
}
