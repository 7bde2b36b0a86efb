/** UTF-8 (section 3 of RFC 3629), whose bytes the registry's text limits count. */
module Utf8 {
  import opened TextLimits
  import opened Utf16
  import opened Wrappers

  function Bytes(c: char): seq<nat> {
    var n := c as nat;
    if n < 0x80 then [n]
    else if n < 0x800 then [0xC0 + n / 0x40, 0x80 + n % 0x40]
    else if n < 0x10000 then [0xE0 + n / 0x1000, 0x80 + n / 0x40 % 0x40, 0x80 + n % 0x40]
    else [0xF0 + n / 0x40000, 0x80 + n / 0x1000 % 0x40, 0x80 + n / 0x40 % 0x40, 0x80 + n % 0x40]
  }

  function EncodeBytes(s: string): seq<nat> {
    if s == "" then [] else Bytes(s[0]) + EncodeBytes(s[1..])
  }

  // The six payload bits of a continuation byte.
  function Payload(b: nat): Option<nat> {
    if 0x80 <= b < 0xC0 then Some(b - 0x80) else None
  }

  // The first code point of a byte sequence and how many bytes spell it, overlong forms being refused.
  function DecodeFirst(b: seq<nat>): Option<(nat, nat)>
    requires b != []
  {
    if b[0] < 0x80 then Some((b[0], 1))
    else if 0xC2 <= b[0] < 0xE0 && |b| >= 2 && Payload(b[1]).Some? then
      Some(((b[0] - 0xC0) * 0x40 + Payload(b[1]).value, 2))
    else if 0xE0 <= b[0] < 0xF0 && |b| >= 3 && Payload(b[1]).Some? && Payload(b[2]).Some? then
      var n := (b[0] - 0xE0) * 0x1000 + Payload(b[1]).value * 0x40 + Payload(b[2]).value;
      if n < 0x800 then None else Some((n, 3))
    else if 0xF0 <= b[0] < 0xF5 && |b| >= 4 && Payload(b[1]).Some? && Payload(b[2]).Some? && Payload(b[3]).Some? then
      var n := (b[0] - 0xF0) * 0x40000 + Payload(b[1]).value * 0x1000 + Payload(b[2]).value * 0x40 + Payload(b[3]).value;
      if n < 0x10000 then None else Some((n, 4))
    else None
  }

  function DecodeBytes(b: seq<nat>): Option<seq<nat>>
    decreases |b|
  {
    if b == [] then Some([])
    else
      var first := DecodeFirst(b);
      if first.None? || !(1 <= first.value.1 <= |b|) then None
      else
        var rest := DecodeBytes(b[first.value.1..]);
        if rest.None? then None else Some([first.value.0] + rest.value)
  }

  lemma SixBits(n: nat)
    ensures n == n / 0x40 * 0x40 + n % 0x40 && n / 0x40 / 0x40 == n / 0x1000 && n / 0x1000 / 0x40 == n / 0x40000
  {
  }

  lemma BytesDecode(c: char, rest: seq<nat>)
    ensures DecodeFirst(Bytes(c) + rest) == Some((c as nat, |Bytes(c)|))
  {
    var n, b := c as nat, Bytes(c);
    var all := b + rest;
    assert all[0] == b[0];
    SixBits(n);
    if |b| >= 2 { assert all[1] == b[1]; }
    if |b| >= 3 {
      assert all[2] == b[2];
      SixBits(n / 0x40);
    }
    if |b| == 4 {
      assert all[3] == b[3];
      SixBits(n / 0x1000);
    }
  }

  lemma BytesSome(c: char)
    ensures 1 <= |Bytes(c)|
  {
  }

  /** The bytes of a text decode to its code points, so no text has a shorter spelling than the one counted. */
  lemma {:induction false} BytesRoundTrip(s: string)
    ensures DecodeBytes(EncodeBytes(s)) == Some(CodePoints(s))
  {
    if s == "" {
      assert CodePoints(s) == [];
    } else {
      var b, rest := Bytes(s[0]), EncodeBytes(s[1..]);
      BytesRoundTrip(s[1..]);
      BytesDecode(s[0], rest);
      BytesSome(s[0]);
      hide Bytes, DecodeFirst;
      assert (b + rest)[|b|..] == rest;
      assert CodePoints(s) == [s[0] as nat] + CodePoints(s[1..]);
    }
  }

  /** What the limits count is the length in UTF-8. */
  lemma {:induction false} ByteLengthIsUtf8(s: string)
    ensures ByteLength(s) == |EncodeBytes(s)|
  {
    if s != "" { ByteLengthIsUtf8(s[1..]); }
  }
}
