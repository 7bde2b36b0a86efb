/** A reader for JSON texts (RFC 8259) with natural numbers, and what it makes of canonical texts. */
module JsonReader {
  import opened CanonicalJson
  import opened Json
  import opened TextParts
  import opened Utf16
  import opened Wrappers

  // ---------- String literals (RFC 8259, section 7) ----------

  function HexDigitValue(c: char): Option<nat> {
    if '0' <= c <= '9' then Some(c as nat - '0' as nat)
    else if 'a' <= c <= 'f' then Some(c as nat - 'a' as nat + 10)
    else if 'A' <= c <= 'F' then Some(c as nat - 'A' as nat + 10)
    else None
  }

  // The character of a four-digit escape outside the surrogates.
  function ReadHex(t: string): Option<char>
    requires |t| >= 4
  {
    var a, b, c, d := HexDigitValue(t[0]), HexDigitValue(t[1]), HexDigitValue(t[2]), HexDigitValue(t[3]);
    if a.None? || b.None? || c.None? || d.None? then None
    else
      var n := 4096 * a.value + 256 * b.value + 16 * c.value + d.value;
      if 0xD800 <= n < 0xE000 then None else Some(n as char)
  }

  // The first character of a literal's body, and how many characters spell it.
  function ReadChar(t: string): Option<(char, nat)>
    requires t != ""
  {
    if t[0] == '"' || t[0] as int < 0x20 then None
    else if t[0] != '\\' then Some((t[0], 1))
    else if |t| < 2 then None
    else match t[1]
      case '"' => Some(('"', 2))
      case '\\' => Some(('\\', 2))
      case '/' => Some(('/', 2))
      case 'b' => Some(('\U{8}', 2))
      case 'f' => Some(('\U{C}', 2))
      case 'n' => Some(('\U{A}', 2))
      case 'r' => Some(('\U{D}', 2))
      case 't' => Some(('\U{9}', 2))
      case 'u' =>
        if |t| < 6 then None
        else
          var c := ReadHex(t[2..]);
          if c.None? then None else Some((c.value, 6))
      case _ => None
  }

  // The text of a literal after its opening quote, and what follows its closing one.
  function ReadBody(t: string): (r: Option<(string, string)>)
    ensures r.Some? ==> |r.value.1| < |t|
    decreases |t|
  {
    if t == "" then None
    else if t[0] == '"' then Some(("", t[1..]))
    else
      var first := ReadChar(t);
      if first.None? || first.value.1 > |t| then None
      else
        var rest := ReadBody(t[first.value.1..]);
        if rest.None? then None else Some(([first.value.0] + rest.value.0, rest.value.1))
  }

  lemma EscapeReads(c: char, x: string)
    ensures ReadChar(Escape(c) + x) == Some((c, |Escape(c)|))
    ensures (Escape(c) + x)[0] != '"' && (Escape(c) + x)[|Escape(c)|..] == x
  {
    var e := Escape(c);
    var t := e + x;
    assert t[0] == e[0] && (|e| > 1 ==> t[1] == e[1]);
    if |e| == 6 {
      assert t[2] == '0' && t[3] == '0' && t[4] == HexDigit(c as int / 16) && t[5] == HexDigit(c as int % 16);
      HexDigitReads(c as int / 16);
      HexDigitReads(c as int % 16);
      assert ReadHex(t[2..]) == Some(c);
    }
  }

  lemma HexDigitReads(n: nat)
    requires n < 16
    ensures HexDigitValue(HexDigit(n)) == Some(n) && !('A' <= HexDigit(n) <= 'F')
  {
    assert "0123456789abcdef"[n] == (if n < 10 then (n + '0' as int) as char else (n - 10 + 'a' as int) as char);
  }

  lemma {:induction false} BodyReads(s: string, x: string)
    ensures ReadBody(Body(s) + x) == Some((s, x))
  {
    if s == "" {
      assert (Body(s) + x)[0] == '"' && (Body(s) + x)[1..] == x;
    } else {
      BodyUnfold(s, x);
      EscapeReads(s[0], Body(s[1..]) + x);
      BodyReads(s[1..], x);
      assert [s[0]] + s[1..] == s;
      hide Escape, ReadChar, Body;
    }
  }

  lemma HexDigitOf(d: char)
    requires HexDigitValue(d).Some? && !('A' <= d <= 'F')
    ensures HexDigitValue(d).value < 16 && HexDigit(HexDigitValue(d).value) == d
  {
    HexDigitReads(HexDigitValue(d).value);
  }

  // A six-character spelling of a control character, in lower case.
  lemma LongSpelling(c: char, spelling: string)
    requires |spelling| == 6 && ReadChar(spelling) == Some((c, 6)) && c as int < 0x20
    requires forall i | 0 <= i < |spelling| :: !('A' <= spelling[i] <= 'F')
    ensures spelling == "\\u00" + [HexDigit(c as int / 16), HexDigit(c as int % 16)]
  {
    var digits := spelling[2..];
    assert ReadHex(digits) == Some(c);
    assert digits[0] == spelling[2] && digits[1] == spelling[3] && digits[2] == spelling[4] && digits[3] == spelling[5];
    HexDigitOf(digits[0]);
    HexDigitOf(digits[1]);
    HexDigitOf(digits[2]);
    HexDigitOf(digits[3]);
    hide HexDigit;
    assert HexDigitValue(digits[0]) == Some(0) && HexDigitValue(digits[1]) == Some(0);
    assert HexDigitValue(digits[2]) == Some(c as int / 16) && HexDigitValue(digits[3]) == Some(c as int % 16);
    HexDigitZero();
  }

  lemma HexDigitZero()
    ensures HexDigit(0) == '0'
  {
  }

  /** Each character is written in the shortest way that reads back as it, hexadecimal digits being lower case. */
  lemma EscapeShortest(c: char, spelling: string)
    requires spelling != "" && ReadChar(spelling) == Some((c, |spelling|))
    ensures |Escape(c)| <= |spelling|
    ensures |Escape(c)| == |spelling| && (|spelling| == 1 || forall i | 0 <= i < |spelling| :: !('A' <= spelling[i] <= 'F')) ==>
      Escape(c) == spelling
  {
    hide ReadHex, HexDigit;
    if |spelling| == 6 && c as int < 0x20 && forall i | 0 <= i < |spelling| :: !('A' <= spelling[i] <= 'F') {
      LongSpelling(c, spelling);
    }
  }

  // ---------- Values (RFC 8259, sections 2 to 5) ----------

  predicate JsonSpace(c: char) {
    c == ' ' || c == '\t' || c == '\n' || c == '\r'
  }

  function Skip(t: string): (r: string)
    ensures |r| <= |t|
  {
    if t != "" && JsonSpace(t[0]) then Skip(t[1..]) else t
  }

  // The digits at the start of the text, and what follows them.
  function ReadDigits(t: string): (r: (string, string))
    ensures |r.1| <= |t| && (t != "" && IsDigit(t[0]) ==> |r.1| < |t|)
  {
    if t == "" || !IsDigit(t[0]) then ("", t)
    else
      var rest := ReadDigits(t[1..]);
      ([t[0]] + rest.0, rest.1)
  }

  // A string, number, array or object after any space, and what follows it.
  function ReadValue(text: string): (r: Option<(Value, string)>)
    ensures r.Some? ==> |r.value.1| < |text|
    decreases |text|, 1
  {
    var t := Skip(text);
    if t == "" then None
    else if IsDigit(t[0]) then
      var number := ReadDigits(t);
      if LeadingZero(number.0) then None else Some((Number(number.0), number.1))
    else if t[0] == '"' then
      var body := ReadBody(t[1..]);
      if body.None? then None else Some((String(body.value.0), body.value.1))
    else if t[0] == '[' then
      var items := ReadItems(t[1..], true);
      if items.None? then None else Some((Array(items.value.0), items.value.1))
    else if t[0] == '{' then
      var members := ReadMembers(t[1..], true);
      if members.None? then None else Some((Object(MapOf(members.value.0)), members.value.1))
    else None
  }

  // The text after the comma that every element but the first needs.
  function AfterComma(t: string, first: bool): Option<string> {
    if first then Some(t) else if t != "" && t[0] == ',' then Some(t[1..]) else None
  }

  // Items up to the closing bracket.
  function ReadItems(text: string, first: bool): (r: Option<(seq<Value>, string)>)
    ensures r.Some? ==> |r.value.1| < |text|
    decreases |text|, 2
  {
    var t := Skip(text);
    if t == "" then None
    else if t[0] == ']' then Some(([], t[1..]))
    else
      var after := AfterComma(t, first);
      if after.None? then None
      else
        var item := ReadValue(after.value);
        if item.None? then None
        else
          var rest := ReadItems(item.value.1, false);
          if rest.None? then None else Some(([item.value.0] + rest.value.0, rest.value.1))
  }

  // Name and value pairs in their order, up to the closing brace.
  function ReadMembers(text: string, first: bool): (r: Option<(seq<(string, Value)>, string)>)
    ensures r.Some? ==> |r.value.1| < |text|
    decreases |text|, 3
  {
    var t := Skip(text);
    if t == "" then None
    else if t[0] == '}' then Some(([], t[1..]))
    else
      var after := AfterComma(t, first);
      if after.None? then None
      else
        var named := ReadNamed(after.value);
        if named.None? then None
        else
          var rest := ReadMembers(named.value.1, false);
          if rest.None? then None else Some(([named.value.0] + rest.value.0, rest.value.1))
  }

  // One name, a colon and a value, with space around them.
  function ReadNamed(text: string): (r: Option<((string, Value), string)>)
    ensures r.Some? ==> |r.value.1| < |text|
    decreases |text|, 2
  {
    var t := Skip(text);
    if t == "" || t[0] != '"' then None
    else
      var name := ReadBody(t[1..]);
      if name.None? then None
      else
        var colon := Skip(name.value.1);
        if colon == "" || colon[0] != ':' then None
        else
          var item := ReadValue(colon[1..]);
          if item.None? then None else Some(((name.value.0, item.value.0), item.value.1))
  }

  // Of members with one name, the last counts.
  function MapOf(members: seq<(string, Value)>): map<string, Value> {
    if members == [] then map[]
    else MapOf(members[..|members| - 1])[members[|members| - 1].0 := members[|members| - 1].1]
  }

  // ---------- Canonical texts read back ----------

  function Pairs(v: Value, keys: seq<string>): seq<(string, Value)>
    requires v.Object? && forall k | k in keys :: k in v.members
  {
    seq(|keys|, i requires 0 <= i < |keys| => (keys[i], v.members[keys[i]]))
  }

  lemma {:induction false} MapOfPairs(v: Value, keys: seq<string>)
    requires v.Object? && forall k | k in keys :: k in v.members
    ensures forall k :: k in MapOf(Pairs(v, keys)) <==> k in keys
    ensures forall k | k in keys :: MapOf(Pairs(v, keys))[k] == v.members[k]
    decreases |keys|
  {
    if keys != [] {
      var n := |keys| - 1;
      MapOfPairs(v, keys[..n]);
      assert Pairs(v, keys)[..n] == Pairs(v, keys[..n]);
      assert keys == keys[..n] + [keys[n]];
    }
  }

  lemma QuoteReads(s: string, x: string)
    ensures (Quote(s) + x)[0] == '"' && ReadBody((Quote(s) + x)[1..]) == Some((s, x))
  {
    BodyReads(s, x);
    hide Body;
    PutFirst('"', Body(s), x);
    assert (['"'] + (Body(s) + x))[1..] == Body(s) + x;
  }

  lemma CommaFirst(first: bool, after: string)
    ensures AfterComma(if first then after else [','] + after, first) == Some(after)
  {
    assert ([','] + after)[1..] == after;
  }

  lemma ItemStep(t: string, first: bool, after: string, item: Value, more: string, items: seq<Value>, x: string)
    requires Skip(t) != "" && Skip(t)[0] != ']' && AfterComma(Skip(t), first) == Some(after)
    requires ReadValue(after) == Some((item, more)) && ReadItems(more, false) == Some((items, x))
    ensures ReadItems(t, first) == Some(([item] + items, x))
  {
    hide ReadValue, Skip;
  }

  lemma ItemsBegin(v: Value, i: nat, x: string)
    requires v.Array? && Supported(v) && i < |v.items|
    ensures var t := ItemsText(v, i) + x;
      Skip(t) != "" && Skip(t)[0] != ']' && AfterComma(Skip(t), i == 0) == Some(Text(v.items[i]) + (ItemsText(v, i + 1) + x))
  {
    ItemsStart(v, i, x);
    ItemsUnfold(v, i, x);
    TextStart(v.items[i], ItemsText(v, i + 1) + x);
    hide Text, ItemsText, Supported;
    CommaFirst(i == 0, Text(v.items[i]) + (ItemsText(v, i + 1) + x));
  }

  lemma ItemsFinish(v: Value, x: string)
    requires v.Array? && Supported(v)
    ensures ReadItems(ItemsText(v, |v.items|) + x, v.items == []) == Some(([], x))
  {
    var t := ItemsText(v, |v.items|) + x;
    assert t[0] == ']' && t[1..] == x;
  }

  lemma SupportedItem(v: Value, i: nat)
    requires v.Array? && Supported(v) && i < |v.items|
    ensures Supported(v.items[i])
  {
  }

  lemma ItemsNext(v: Value, i: nat, x: string, more: string)
    requires v.Array? && Supported(v) && i < |v.items| && more == ItemsText(v, i + 1) + x
    requires ReadValue(Text(v.items[i]) + more) == Some((v.items[i], more))
    requires ReadItems(more, false) == Some((v.items[i + 1..], x))
    ensures ReadItems(ItemsText(v, i) + x, i == 0) == Some((v.items[i..], x))
  {
    ItemsBegin(v, i, x);
    hide *;
    ItemStep(ItemsText(v, i) + x, i == 0, Text(v.items[i]) + more, v.items[i], more, v.items[i + 1..], x);
    assert v.items[i..] == [v.items[i]] + v.items[i + 1..];
  }

  lemma {:induction false} ItemsRead(v: Value, i: nat, x: string)
    requires v.Array? && Supported(v) && i <= |v.items|
    ensures ReadItems(ItemsText(v, i) + x, i == 0) == Some((v.items[i..], x))
    decreases v, 0, |v.items| - i
  {
    hide *;
    if i == |v.items| {
      ItemsFinish(v, x);
      assert v.items[i..] == [];
    } else {
      SupportedItem(v, i);
      var more := ItemsText(v, i + 1) + x;
      TextReads(v.items[i], more);
      ItemsRead(v, i + 1, x);
      ItemsNext(v, i, x, more);
    }
  }

  lemma NamedReads(t: string, name: string, named: string, item: Value, more: string)
    requires Skip(t) != "" && Skip(t)[0] == '"' && ReadBody(Skip(t)[1..]) == Some((name, [':'] + named))
    requires ReadValue(named) == Some((item, more))
    ensures ReadNamed(t) == Some(((name, item), more))
  {
    hide ReadValue, ReadBody;
    assert ([':'] + named)[0] == ':' && ([':'] + named)[1..] == named;
  }

  lemma MemberStep(t: string, first: bool, after: string, member: (string, Value), more: string,
                   pairs: seq<(string, Value)>, x: string)
    requires Skip(t) != "" && Skip(t)[0] != '}' && AfterComma(Skip(t), first) == Some(after)
    requires ReadNamed(after) == Some((member, more)) && ReadMembers(more, false) == Some((pairs, x))
    ensures ReadMembers(t, first) == Some(([member] + pairs, x))
  {
    hide ReadNamed, Skip;
  }

  lemma PairsUnfold(v: Value, keys: seq<string>)
    requires v.Object? && keys != [] && forall k | k in keys :: k in v.members
    ensures Pairs(v, keys) == [(keys[0], v.members[keys[0]])] + Pairs(v, keys[1..])
  {
  }

  lemma {:induction false} MembersRead(v: Value, keys: seq<string>, first: bool, x: string)
    requires v.Object? && Supported(v) && forall k | k in keys :: k in v.members
    ensures ReadMembers(MembersText(v, keys, first) + x, first) == Some((Pairs(v, keys), x))
    decreases v, 0, |keys|
  {
    var t := MembersText(v, keys, first) + x;
    MembersStart(v, keys, first, x);
    if keys == [] {
      assert t[1..] == x && Pairs(v, keys) == [];
    } else {
      var more := MembersText(v, keys[1..], false) + x;
      var named := Text(v.members[keys[0]]) + more;
      var after := Quote(keys[0]) + ([':'] + named);
      MembersUnfold(v, keys, first, x);
      QuoteReads(keys[0], [':'] + named);
      TextReads(v.members[keys[0]], more);
      MembersRead(v, keys[1..], false, x);
      PairsUnfold(v, keys);
      hide Text, MembersText, ReadValue, ReadBody, Quote, Supported, ReadMembers, Pairs;
      CommaFirst(first, after);
      assert t[0] != '}' && Skip(t) == t && Skip(after) == after;
      NamedReads(after, keys[0], named, v.members[keys[0]], more);
      MemberStep(t, first, after, (keys[0], v.members[keys[0]]), more, Pairs(v, keys[1..]), x);
    }
  }

  /** A canonical text, whatever follows it, reads back as its value: it is valid JSON and says what it should. */
  lemma {:induction false} TextReads(v: Value, x: string)
    requires Supported(v)
    ensures ReadValue(Text(v) + x) == Some((v, x))
    decreases v, 2, 0
  {
    match v
    case String(text) => QuoteReads(text, x);
    case Array(_) =>
      ItemsRead(v, 0, x);
      var m := ItemsText(v, 0);
      PutFirst('[', m, x);
      hide ItemsText, ReadItems;
      assert (['['] + (m + x))[1..] == m + x;
      assert v.items[0..] == v.items;
    case Object(members) => ObjectReads(v, x);
  }

  lemma {:induction false} ObjectReads(v: Value, x: string)
    requires v.Object? && Supported(v)
    ensures ReadValue(Text(v) + x) == Some((v, x))
    decreases v, 1, 0
  {
    hide Text, MembersText, ReadMembers, MapOf, SortedKeys, Supported;
    var ks := SortedKeys(v.members.Keys);
    ObjectText(v, x);
    MembersRead(v, ks, true, x);
    MapOfPairs(v, ks);
    var m := MembersText(v, ks, true) + x;
    assert (['{'] + m)[0] == '{' && (['{'] + m)[1..] == m;
    assert MapOf(Pairs(v, ks)) == v.members;
  }

  /** String literals are self-delimiting: neither can be continued into the other. */
  lemma QuotePrefixFree(a: string, b: string, x: string, y: string)
    requires Quote(a) + x == Quote(b) + y
    ensures a == b && x == y
  {
    QuoteReads(a, x);
    QuoteReads(b, y);
    hide Quote, ReadBody;
  }

  /** Canonical texts are self-delimiting: a text followed by anything determines its value. */
  lemma TextPrefixFree(v: Value, w: Value, x: string, y: string)
    requires Supported(v) && Supported(w) && Text(v) + x == Text(w) + y
    ensures v == w && x == y
  {
    TextReads(v, x);
    TextReads(w, y);
    hide Text, ReadValue, Supported;
  }

  /** Two values have the same canonical text exactly when they are equal, objects read as maps. */
  lemma TextInjective(v: Value, w: Value)
    requires Supported(v) && Supported(w)
    ensures Text(v) == Text(w) <==> v == w
  {
    if Text(v) == Text(w) { TextPrefixFree(v, w, "", ""); }
  }

  /** Reading an object's canonical text meets its members in ascending order of their names' UTF-16 units
      (section 3.2.3 of RFC 8785). */
  lemma MembersAscend(v: Value, x: string)
    requires v.Object? && Supported(v)
    ensures Text(v) != "" && Text(v)[0] == '{'
    ensures var members := ReadMembers((Text(v) + x)[1..], true);
      && members.Some? && members.value.1 == x
      && forall i, j | 0 <= i < j < |members.value.0| ::
        UnitsBelow(Encode(members.value.0[i].0), Encode(members.value.0[j].0))
  {
    var ks := SortedKeys(v.members.Keys);
    ObjectText(v, x);
    ObjectText(v, "");
    MembersRead(v, ks, true, x);
    var m := MembersText(v, ks, true);
    assert Text(v) + "" == Text(v);
    hide Text, MembersText, ReadMembers, Supported, Encode;
    assert (['{'] + (m + x))[1..] == m + x;
    BeforeIsStrict();
    forall i, j | 0 <= i < j < |ks| ensures UnitsBelow(Encode(ks[i]), Encode(ks[j])) {
      BeforeIff(ks[i], ks[j]);
      SortedAscends(v.members.Keys, i, j);
    }
  }

  lemma SortedAscends(keys: set<string>, i: nat, j: nat)
    requires i < j < |SortedKeys(keys)|
    ensures Before(SortedKeys(keys)[i], SortedKeys(keys)[j])
  {
    BeforeIsStrict();
    hide Before;
  }
}
