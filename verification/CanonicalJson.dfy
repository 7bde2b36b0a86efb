/** The restricted RFC 8785 serializer: strings, arrays and objects only (`write_canonical_json`). */
module CanonicalJson {
  import opened Json
  import opened KeyOrder
  import opened TextOutput
  import opened Utf16
  import opened Wrappers

  // ---------- Member order ----------

  lemma BeforeIsStrict()
    ensures StrictTotal(Before)
  {
    forall a, b, c ensures !Before(a, a) && (a != b ==> (Before(a, b) <==> !Before(b, a))) &&
                           (Before(a, b) && Before(b, c) ==> Before(a, c))
    {
      TotalOrder(a, b, c);
      TotalOrder(a, a, a);
    }
  }

  /** The members of a set of keys in UTF-16 order. */
  ghost function SortedKeys(keys: set<string>): (s: seq<string>)
    ensures forall k :: k in s <==> k in keys
  {
    BeforeIsStrict();
    Listed(keys, Before)
  }

  // ---------- String literals (RFC 8785, section 3.2.2.2) ----------

  function HexDigit(n: nat): char
    requires n < 16
  {
    "0123456789abcdef"[n]
  }

  function Escape(c: char): string {
    if c == '"' then "\\\""
    else if c == '\\' then "\\\\"
    else if c == '\n' then "\\n"
    else if c == '\r' then "\\r"
    else if c == '\t' then "\\t"
    else if c as int == 0x08 then "\\b"
    else if c as int == 0x0C then "\\f"
    else if c as int < 0x20 then "\\u00" + [HexDigit(c as int / 16), HexDigit(c as int % 16)]
    else [c]
  }

  // The characters of a literal after its opening quote.
  function Body(s: string): string {
    if s == [] then "\"" else Escape(s[0]) + Body(s[1..])
  }

  function Quote(s: string): string {
    "\"" + Body(s)
  }

  lemma BodyUnfold(s: string, x: string)
    requires s != []
    ensures Body(s) + x == Escape(s[0]) + (Body(s[1..]) + x)
  {
  }

  lemma PutFirst(c: char, m: string, x: string)
    ensures [c] + m + x == [c] + (m + x)
  {
  }

  // ---------- Canonical text ----------

  /** Only strings, arrays and objects occur. */
  predicate Supported(v: Value) {
    match v
    case String(_) => true
    case Array(items) => forall i | 0 <= i < |items| :: Supported(items[i])
    case Object(members) => forall k | k in members :: Supported(members[k])
    case _ => false
  }

  ghost function Text(v: Value): string
    requires Supported(v)
    decreases v, 1, 0
  {
    match v
    case String(text) => Quote(text)
    case Array(items) => "[" + ItemsText(v, 0)
    case Object(members) => "{" + MembersText(v, SortedKeys(members.Keys), true)
  }

  // The items from position i on, with their separators and the closing bracket.
  ghost function ItemsText(v: Value, i: nat): string
    requires v.Array? && Supported(v) && i <= |v.items|
    decreases v, 0, |v.items| - i
  {
    if i == |v.items| then "]"
    else (if i > 0 then "," else "") + Text(v.items[i]) + ItemsText(v, i + 1)
  }

  // The members named by keys, with their separators and the closing brace.
  ghost function MembersText(v: Value, keys: seq<string>, first: bool): string
    requires v.Object? && Supported(v) && forall k | k in keys :: k in v.members
    decreases v, 0, |keys|
  {
    if keys == [] then "}"
    else (if first then "" else ",") + Quote(keys[0]) + ":" + Text(v.members[keys[0]]) + MembersText(v, keys[1..], false)
  }

  // ---------- Canonical text, piece by piece ----------

  lemma TextStart(v: Value, x: string)
    requires Supported(v)
    ensures |Text(v) + x| > 0
    ensures (Text(v) + x)[0] == (match v case Array(_) => '[' case Object(_) => '{' case _ => '"')
  {
  }

  lemma ItemsUnfold(v: Value, i: nat, x: string)
    requires v.Array? && Supported(v) && i < |v.items|
    ensures i == 0 ==> ItemsText(v, i) + x == Text(v.items[i]) + (ItemsText(v, i + 1) + x)
    ensures i > 0 ==> ItemsText(v, i) + x == [','] + (Text(v.items[i]) + (ItemsText(v, i + 1) + x))
  {
    assert ItemsText(v, i) + x == (if i > 0 then "," else "") + (Text(v.items[i]) + (ItemsText(v, i + 1) + x));
  }

  lemma ItemsStart(v: Value, i: nat, x: string)
    requires v.Array? && Supported(v) && i <= |v.items|
    ensures |ItemsText(v, i) + x| > 0 && ((ItemsText(v, i) + x)[0] == ']' <==> i == |v.items|)
  {
    if i < |v.items| {
      ItemsUnfold(v, i, x);
      TextStart(v.items[i], ItemsText(v, i + 1) + x);
    }
  }

  lemma MembersUnfold(v: Value, keys: seq<string>, first: bool, x: string)
    requires v.Object? && Supported(v) && (forall k | k in keys :: k in v.members) && keys != []
    ensures var rest := Quote(keys[0]) + ([':'] + (Text(v.members[keys[0]]) + (MembersText(v, keys[1..], false) + x)));
      MembersText(v, keys, first) + x == if first then rest else [','] + rest
  {
    var sep, q := if first then "" else ",", Quote(keys[0]);
    var t, m := Text(v.members[keys[0]]), MembersText(v, keys[1..], false);
    assert MembersText(v, keys, first) == sep + q + ":" + t + m;
    hide Text, MembersText, Quote, Supported;
    Regroup(sep, q, ":", t, m, x);
    assert ":" == [':'] && "," == [','];
  }

  lemma Regroup(a: string, b: string, c: string, d: string, e: string, f: string)
    ensures a + b + c + d + e + f == a + (b + (c + (d + (e + f))))
  {
  }

  lemma MembersStart(v: Value, keys: seq<string>, first: bool, x: string)
    requires v.Object? && Supported(v) && (forall k | k in keys :: k in v.members)
    ensures |MembersText(v, keys, first) + x| > 0 && ((MembersText(v, keys, first) + x)[0] == '}' <==> keys == [])
  {
    if keys != [] {
      MembersUnfold(v, keys, first, x);
    }
  }

  lemma ObjectText(v: Value, x: string)
    requires v.Object? && Supported(v)
    ensures var ks := SortedKeys(v.members.Keys);
      && (forall k | k in ks :: k in v.members)
      && Text(v) + x == ['{'] + (MembersText(v, ks, true) + x)
  {
    hide MembersText, SortedKeys;
    var ks := SortedKeys(v.members.Keys);
    var m := MembersText(v, ks, true);
    assert Text(v) == "{" + m;
    PutFirst('{', m, x);
  }

  // ---------- The writer ----------

  method MemberOrder(members: map<string, Value>) returns (keys: seq<string>)
    ensures keys == SortedKeys(members.Keys)
  {
    BeforeIsStrict();
    hide Before;
    keys := ListKeys(members.Keys, Before);
  }

  // done is the part of v's text up to item i.
  ghost predicate WrittenItems(v: Value, i: nat, done: string)
    requires v.Array? && i <= |v.items|
  {
    Supported(v) ==> Text(v) == done + ItemsText(v, i)
  }

  ghost predicate WrittenMembers(v: Value, keys: seq<string>, i: nat, done: string)
    requires v.Object? && i <= |keys| && forall k | k in keys :: k in v.members
  {
    Supported(v) ==> Text(v) == done + MembersText(v, keys[i..], i == 0)
  }

  lemma SupportedItems(v: Value)
    requires v.Array?
    ensures Supported(v) <==> forall i | 0 <= i < |v.items| :: Supported(v.items[i])
  {
  }

  lemma SupportedMembers(v: Value, keys: seq<string>)
    requires v.Object? && forall k :: k in keys <==> k in v.members
    ensures forall i | 0 <= i < |keys| :: keys[i] in v.members
    ensures Supported(v) <==> forall i | 0 <= i < |keys| :: Supported(v.members[keys[i]])
  {
    assert forall i | 0 <= i < |keys| :: keys[i] in keys;
    if forall i | 0 <= i < |keys| :: Supported(v.members[keys[i]]) {
      forall k | k in v.members ensures Supported(v.members[k]) {
        var i :| 0 <= i < |keys| && keys[i] == k;
      }
    }
  }

  lemma ItemWritten(v: Value, i: nat, done: string)
    requires v.Array? && i < |v.items| && WrittenItems(v, i, done)
    ensures Supported(v.items[i]) ==> WrittenItems(v, i + 1, done + (if i > 0 then "," else "") + Text(v.items[i]))
  {
    if Supported(v) {
      hide Text;
      var sep, t, m := if i > 0 then "," else "", Text(v.items[i]), ItemsText(v, i + 1);
      assert ItemsText(v, i) == sep + t + m;
      hide ItemsText, Supported;
      assert done + (sep + t + m) == done + sep + t + m;
    }
  }

  lemma MemberWritten(v: Value, keys: seq<string>, i: nat, done: string)
    requires v.Object? && (forall k | k in keys :: k in v.members) && i < |keys| && WrittenMembers(v, keys, i, done)
    ensures Supported(v.members[keys[i]]) ==>
      WrittenMembers(v, keys, i + 1, done + (if i > 0 then "," else "") + Quote(keys[i]) + ":" + Text(v.members[keys[i]]))
  {
    if Supported(v) {
      MembersUnfold(v, keys[i..], i == 0, "");
      assert keys[i..][1..] == keys[i + 1..];
      hide Text, MembersText, Supported, Quote;
      var t, m := Text(v.members[keys[i]]), MembersText(v, keys[i + 1..], false);
      assert m + "" == m && MembersText(v, keys[i..], i == 0) + "" == MembersText(v, keys[i..], i == 0);
      Regroup(done, if i > 0 then "," else "", Quote(keys[i]), ":", t, m);
      assert ":" == [':'] && "," == [','];
      if i == 0 { assert "" + (Quote(keys[i]) + (":" + (t + m))) == Quote(keys[i]) + (":" + (t + m)); }
    }
  }

  lemma ItemsBegin(v: Value)
    requires v.Array?
    ensures WrittenItems(v, 0, "[")
  {
  }

  lemma ItemsEnd(v: Value, done: string)
    requires v.Array? && Supported(v) && WrittenItems(v, |v.items|, done)
    ensures Text(v) == done + "]"
  {
  }

  lemma MembersBegin(v: Value, keys: seq<string>)
    requires v.Object? && keys == SortedKeys(v.members.Keys) && forall k | k in keys :: k in v.members
    ensures WrittenMembers(v, keys, 0, "{")
  {
    if Supported(v) {
      ObjectText(v, "");
      hide Text, MembersText, Supported, SortedKeys;
      assert keys[0..] == keys && Text(v) + "" == Text(v);
      var m := MembersText(v, keys, true);
      assert m + "" == m && "{" == ['{'];
    }
  }

  lemma MembersEnd(v: Value, keys: seq<string>, done: string)
    requires v.Object? && Supported(v) && (forall k | k in keys :: k in v.members) && WrittenMembers(v, keys, |keys|, done)
    ensures Text(v) == done + "}"
  {
  }

  /** Append the canonical text of the value; fails exactly when a null, boolean or number occurs in it. */
  method WriteCanonicalJson(value: Value, output: Output) returns (ok: bool)
    modifies output
    ensures ok <==> Supported(value)
    ensures ok ==> output.text == old(output.text) + Text(value)
    decreases value, 1
  {
    match value
    case String(text) =>
      output.Push(Quote(text));
      ok := true;
    case Array(_) =>
      ok := WriteItems(value, output);
    case Object(_) =>
      ok := WriteMembers(value, output);
    case _ =>
      ok := false;
  }

  method WriteItems(value: Value, output: Output) returns (ok: bool)
    requires value.Array?
    modifies output
    ensures ok <==> Supported(value)
    ensures ok ==> output.text == old(output.text) + Text(value)
    decreases value, 0
  {
    hide Text, ItemsText, Supported, WrittenItems;
    ghost var before, done := output.text, "[";
    var items := value.items;
    SupportedItems(value);
    output.Push("[");
    ItemsBegin(value);
    for i := 0 to |items|
      invariant forall k | 0 <= k < i :: Supported(items[k])
      invariant output.text == before + done && WrittenItems(value, i, done)
    {
      ItemWritten(value, i, done);
      if i > 0 {
        output.Push(",");
      }
      ok := WriteCanonicalJson(items[i], output);
      if !ok {
        return false;
      }
      var sep := if i > 0 then "," else "";
      assert before + done + sep + Text(items[i]) == before + (done + sep + Text(items[i]));
      done := done + sep + Text(items[i]);
    }
    output.Push("]");
    ItemsEnd(value, done);
    assert before + done + "]" == before + (done + "]");
    return true;
  }

  method WriteMembers(value: Value, output: Output) returns (ok: bool)
    requires value.Object?
    modifies output
    ensures ok <==> Supported(value)
    ensures ok ==> output.text == old(output.text) + Text(value)
    decreases value, 0
  {
    hide Text, MembersText, Supported, WrittenMembers, Quote, SortedKeys;
    ghost var before, done := output.text, "{";
    var members := value.members;
    output.Push("{");
    var keys := MemberOrder(members);
    SupportedMembers(value, keys);
    MembersBegin(value, keys);
    for i := 0 to |keys|
      invariant forall k | 0 <= k < i :: Supported(members[keys[k]])
      invariant output.text == before + done && WrittenMembers(value, keys, i, done)
    {
      MemberWritten(value, keys, i, done);
      if i > 0 {
        output.Push(",");
      }
      ok := WriteMember(keys[i], members[keys[i]], output);
      if !ok {
        return false;
      }
      ghost var sep, t := if i > 0 then "," else "", Text(members[keys[i]]);
      Regroup3(before, done, sep, Quote(keys[i]), ":", t);
      done := done + sep + Quote(keys[i]) + ":" + t;
    }
    output.Push("}");
    MembersEnd(value, keys, done);
    assert before + done + "}" == before + (done + "}");
    return true;
  }

  method WriteMember(key: string, item: Value, output: Output) returns (ok: bool)
    modifies output
    ensures ok <==> Supported(item)
    ensures ok ==> output.text == old(output.text) + Quote(key) + ":" + Text(item)
    decreases item, 2
  {
    hide Text, Supported, Quote;
    output.Push(Quote(key));
    output.Push(":");
    ok := WriteCanonicalJson(item, output);
  }

  lemma Regroup3(a: string, b: string, c: string, d: string, e: string, f: string)
    ensures a + b + c + d + e + f == a + (b + c + d + e + f)
  {
  }
}
