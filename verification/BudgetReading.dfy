/** A budget as a JSON document. */
module BudgetReading {
  import opened CountReport
  import opened Json
  import opened JsonReader
  import opened TextParts
  import opened Wrappers

  // ---------- Numbers and names ----------

  // A text after which digits cannot go on.
  predicate NoDigit(rest: string) {
    rest == "" || !IsDigit(rest[0])
  }

  lemma {:induction false} DigitsRead(s: string, rest: string)
    requires (forall i | 0 <= i < |s| :: IsDigit(s[i])) && NoDigit(rest)
    ensures ReadDigits(s + rest) == (s, rest)
  {
    if s == "" {
      assert s + rest == rest;
    } else {
      assert (s + rest)[0] == s[0] && (s + rest)[1..] == s[1..] + rest;
      DigitsRead(s[1..], rest);
      assert [s[0]] + s[1..] == s;
    }
  }

  lemma {:induction false} SkipLead(lead: string, t: string)
    requires (forall i | 0 <= i < |lead| :: JsonSpace(lead[i])) && t != "" && !JsonSpace(t[0])
    ensures Skip(lead + t) == t == Skip(t)
  {
    if lead == "" {
      assert lead + t == t;
    } else {
      assert (lead + t)[0] == lead[0] && (lead + t)[1..] == lead[1..] + t;
      SkipLead(lead[1..], t);
    }
  }

  lemma CountReads(n: nat, rest: string)
    requires NoDigit(rest)
    ensures ReadValue(" " + Print(n) + rest) == Some((Number(Print(n)), rest))
  {
    PrintRoundTrip(n);
    var digits := Print(n);
    DigitsRead(digits, rest);
    hide Print, Decimal;
    assert (digits + rest)[0] == digits[0];
    SkipLead(" ", digits + rest);
    assert " " + digits + rest == " " + (digits + rest);
  }

  // A name, a colon, a space and a count.
  function CountText(name: string, n: nat): string {
    "\"" + Escape(name) + "\": " + Print(n)
  }

  lemma NameLayout(name: string, item: string)
    ensures var t := "\"" + name + "\": " + item;
      t[0] == '"' && t[1..] == name + ("\"" + ([':'] + (" " + item)))
  {
    var t, tail := "\"" + name + "\": " + item, name + ("\"" + ([':'] + (" " + item)));
    assert "\": " == ['"'] + [':'] + [' '];
    assert t == ['"'] + tail;
    assert (['"'] + tail)[1..] == tail;
  }

  // A name with a value after a space.
  lemma NameReads(name: string, item: string, v: Value, rest: string)
    requires ReadValue(" " + item) == Some((v, rest))
    ensures var t := "\"" + Escape(name) + "\": " + item;
      t[0] == '"' && ReadNamed(t) == Some(((name, v), rest))
  {
    EscapeIsJson(name, [':'] + (" " + item));
    hide Escape, ReadBody, ReadValue;
    NameLayout(Escape(name), item);
    SkipLead("", "\"" + Escape(name) + "\": " + item);
    NamedReads("\"" + Escape(name) + "\": " + item, name, " " + item, v, rest);
  }

  lemma CountNamed(name: string, n: nat, rest: string)
    requires NoDigit(rest)
    ensures (CountText(name, n) + rest)[0] == '"'
    ensures ReadNamed(CountText(name, n) + rest) == Some(((name, Number(Print(n))), rest))
  {
    CountReads(n, rest);
    hide Escape, Print, ReadNamed, ReadValue;
    assert " " + Print(n) + rest == " " + (Print(n) + rest);
    NameReads(name, Print(n) + rest, Number(Print(n)), rest);
    assert CountText(name, n) + rest == "\"" + Escape(name) + "\": " + (Print(n) + rest);
  }

  // ---------- Members one after another ----------

  function Comma(first: bool): string {
    if first then "" else ","
  }

  lemma MemberReads(first: bool, lead: string, body: string, member: (string, Value), more: string,
                    pairs: seq<(string, Value)>, x: string)
    requires (forall i | 0 <= i < |lead| :: JsonSpace(lead[i])) && body != "" && body[0] == '"'
    requires ReadNamed(body) == Some((member, more)) && ReadMembers(more, false) == Some((pairs, x))
    ensures ReadMembers(Comma(first) + (lead + body), first) == Some(([member] + pairs, x))
  {
    SkipLead(lead, body);
    assert ReadNamed(lead + body) == ReadNamed(body);
    hide ReadNamed, ReadMembers;
    if first {
      assert Comma(first) + (lead + body) == lead + body;
      MemberStep(lead + body, true, body, member, more, pairs, x);
    } else {
      var t := "," + (lead + body);
      assert t[0] == ',' && t[1..] == lead + body;
      SkipLead("", t);
      assert "" + t == t;
      MemberStep(t, false, lead + body, member, more, pairs, x);
    }
  }

  lemma MembersEnd(lead: string, x: string, first: bool)
    requires forall i | 0 <= i < |lead| :: JsonSpace(lead[i])
    ensures ReadMembers(lead + ("}" + x), first) == Some(([], x))
  {
    assert ("}" + x)[0] == '}' && ("}" + x)[1..] == x;
    SkipLead(lead, "}" + x);
    hide Skip;
  }

  // ---------- The counts ----------

  function Counted(codes: seq<string>, counts: Counts): seq<(string, Value)>
    requires forall i | 0 <= i < |codes| :: codes[i] in counts
  {
    seq(|codes|, i requires 0 <= i < |codes| => (codes[i], Number(Print(counts[codes[i]]))))
  }

  // What follows the first of the entries.
  function AfterFirst(codes: seq<string>, counts: Counts, rest: string): string
    requires codes != [] && forall i | 0 <= i < |codes| :: codes[i] in counts
  {
    if |codes| == 1 then rest else "," + (Join(Entries(codes[1..], counts), ',') + rest)
  }

  lemma Associate(a: string, b: string, c: string)
    ensures a + b + c == a + (b + c)
  {
  }

  lemma EntryIsCount(code: string, n: nat)
    ensures Entry(code, n) == "\n  " + CountText(code, n)
  {
    hide Escape, Print;
    assert "\n  \"" == "\n  " + "\"";
  }

  lemma JoinAfterFirst(entries: seq<string>, rest: string)
    requires |entries| > 1
    ensures Join(entries, ',') + rest == entries[0] + ("," + (Join(entries[1..], ',') + rest))
  {
    JoinUnfold(entries);
    hide Join;
    FourParts(entries[0], ",", Join(entries[1..], ','), rest);
  }

  lemma JoinUnfold(entries: seq<string>)
    requires |entries| > 1
    ensures Join(entries, ',') == entries[0] + "," + Join(entries[1..], ',')
  {
    assert [','] == ",";
  }

  lemma FourParts(a: string, b: string, c: string, d: string)
    ensures a + b + c + d == a + (b + (c + d))
  {
  }

  lemma CountedUnfold(codes: seq<string>, counts: Counts)
    requires codes != [] && forall i | 0 <= i < |codes| :: codes[i] in counts
    ensures Counted(codes, counts) == [(codes[0], Number(Print(counts[codes[0]])))] + Counted(codes[1..], counts)
    ensures |codes| == 1 ==> Counted(codes[1..], counts) == []
  {
    hide Print;
  }

  lemma EntriesUnfold(codes: seq<string>, counts: Counts, rest: string)
    requires codes != [] && forall i | 0 <= i < |codes| :: codes[i] in counts
    ensures Join(Entries(codes, counts), ',') + rest ==
      "\n  " + (CountText(codes[0], counts[codes[0]]) + AfterFirst(codes, counts, rest))
  {
    hide Escape, Print, CountText, Entry;
    var entries, body := Entries(codes, counts), CountText(codes[0], counts[codes[0]]);
    EntryIsCount(codes[0], counts[codes[0]]);
    assert entries[0] == "\n  " + body && entries[1..] == Entries(codes[1..], counts);
    if |codes| > 1 {
      JoinAfterFirst(entries, rest);
    } else {
      assert Join(entries, ',') == entries[0];
    }
    hide Join, Entries;
    Associate("\n  ", body, AfterFirst(codes, counts, rest));
  }

  lemma {:induction false} EntriesRead(codes: seq<string>, counts: Counts, first: bool, lead: string, x: string)
    requires codes != [] && forall i | 0 <= i < |codes| :: codes[i] in counts
    requires lead != "" && forall i | 0 <= i < |lead| :: JsonSpace(lead[i])
    ensures ReadMembers(Comma(first) + (Join(Entries(codes, counts), ',') + (lead + ("}" + x))), first) ==
      Some((Counted(codes, counts), x))
    decreases |codes|
  {
    var rest := lead + ("}" + x);
    var tail := AfterFirst(codes, counts, rest);
    var n := counts[codes[0]];
    EntriesUnfold(codes, counts, rest);
    CountedUnfold(codes, counts);
    hide Entries, Join, CountText, Print, Counted, ReadNamed;
    assert rest[0] == lead[0];
    CountNamed(codes[0], n, tail);
    if |codes| == 1 {
      MembersEnd(lead, x, false);
    } else {
      EntriesRead(codes[1..], counts, false, lead, x);
    }
    hide ReadMembers;
    MemberReads(first, "\n  ", CountText(codes[0], n) + tail, (codes[0], Number(Print(n))), tail, Counted(codes[1..], counts), x);
  }

  // ---------- The statistics ----------

  function StatsMembers(stats: Stats): seq<(string, Value)> {
    [("dart", Number(Print(stats.dart))), ("files", Number(Print(stats.files))), ("lines", Number(Print(stats.lines))),
     ("rust", Number(Print(stats.rust))), ("ts", Number(Print(stats.ts)))]
  }

  lemma PlainNames()
    ensures Escape("dart") == "dart" && Escape("files") == "files" && Escape("lines") == "lines"
    ensures Escape("rust") == "rust" && Escape("ts") == "ts"
    ensures Escape("stats") == "stats" && Escape("budget") == "budget" && Escape("version") == "version"
  {
    hide Escape;
    PlainName("dart");
    PlainName("files");
    PlainName("lines");
    PlainName("rust");
    PlainName("ts");
    PlainName("stats");
    PlainName("budget");
    PlainName("version");
  }

  lemma {:induction false} PlainName(name: string)
    requires forall i | 0 <= i < |name| :: 'a' <= name[i] <= 'z'
    ensures Escape(name) == name
  {
    if name != "" {
      PlainName(name[1..]);
      assert EscapeChar(name[0]) == [name[0]];
      assert [name[0]] + name[1..] == name;
    }
  }

  // The statistics from one name on, and the text behind them.
  function StatsFrom(stats: Stats, k: nat, rest: string): string
    requires k <= 5
    decreases 5 - k
  {
    if k == 5 then "}" + rest
    else
      Comma(k == 0) + ((if k == 0 then "" else " ") + (CountText(StatName(k), StatOf(stats, k)) + StatsFrom(stats, k + 1, rest)))
  }

  function StatName(k: nat): string
    requires k < 5
  {
    ["dart", "files", "lines", "rust", "ts"][k]
  }

  function StatOf(stats: Stats, k: nat): nat
    requires k < 5
  {
    [stats.dart, stats.files, stats.lines, stats.rust, stats.ts][k]
  }

  lemma StatAt(stats: Stats, k: nat)
    requires k < 5
    ensures |StatsMembers(stats)| == 5
    ensures StatsMembers(stats)[k..] == [(StatName(k), Number(Print(StatOf(stats, k))))] + StatsMembers(stats)[k + 1..]
  {
    hide Print;
  }

  lemma StatsEnd(stats: Stats, rest: string)
    ensures ReadMembers(StatsFrom(stats, 5, rest), false) == Some((StatsMembers(stats)[5..], rest))
  {
    MembersEnd("", rest, false);
    assert "" + ("}" + rest) == "}" + rest;
    assert StatsMembers(stats)[5..] == [];
  }

  lemma StatsStart(stats: Stats, k: nat, rest: string)
    requires k <= 5
    ensures NoDigit(StatsFrom(stats, k, rest)) || k == 0
  {
    hide CountText;
  }

  lemma {:induction false} StatsRead(stats: Stats, k: nat, rest: string)
    requires k <= 5
    ensures ReadMembers(StatsFrom(stats, k, rest), k == 0) == Some((StatsMembers(stats)[k..], rest))
    decreases 5 - k
  {
    if k == 5 {
      StatsEnd(stats, rest);
    } else {
      var more := StatsFrom(stats, k + 1, rest);
      StatsRead(stats, k + 1, rest);
      StatsStart(stats, k + 1, rest);
      StatAt(stats, k);
      hide ReadMembers, ReadNamed, CountText, Print, StatName, StatOf, StatsMembers;
      var name, n := StatName(k), StatOf(stats, k);
      CountNamed(name, n, more);
      MemberReads(k == 0, if k == 0 then "" else " ", CountText(name, n) + more, (name, Number(Print(n))), more,
        StatsMembers(stats)[k + 1..], rest);
    }
  }

  lemma CountIsField(name: string, n: nat)
    requires Escape(name) == name
    ensures CountText(name, n) == FieldText(name, n)
  {
  }

  lemma StatsTail(stats: Stats, k: nat, name: string, n: nat, rest: string)
    requires 0 < k < 5 && name == StatName(k) && n == StatOf(stats, k) && Escape(name) == name
    ensures StatsFrom(stats, k, rest) == ", " + FieldText(name, n) + StatsFrom(stats, k + 1, rest)
  {
    CountIsField(name, n);
    hide FieldText, CountText, Escape, StatName, StatOf;
    assert ", " == "," + " ";
  }

  lemma StatsHead(stats: Stats, rest: string)
    ensures StatsFrom(stats, 0, rest) == FieldText("dart", stats.dart) + StatsFrom(stats, 1, rest)
  {
    PlainNames();
    CountIsField("dart", stats.dart);
    hide FieldText, CountText, Escape;
  }

  // The statistics as written are the statistics from the first name on.
  lemma StatsLayout(stats: Stats, rest: string)
    ensures StatsText(stats) + rest == " \"stats\": {" + StatsFrom(stats, 0, ",\n" + rest)
  {
    PlainNames();
    var end := ",\n" + rest;
    StatsHead(stats, end);
    StatsTail(stats, 1, "files", stats.files, end);
    StatsTail(stats, 2, "lines", stats.lines, end);
    StatsTail(stats, 3, "rust", stats.rust, end);
    StatsTail(stats, 4, "ts", stats.ts, end);
    StatsClose(stats, rest);
    hide FieldText, StatsFrom, Escape, StatName, StatOf, Print;
    FiveFields(" \"stats\": {", FieldText("dart", stats.dart), FieldText("files", stats.files), FieldText("lines", stats.lines),
      FieldText("rust", stats.rust), FieldText("ts", stats.ts), StatsFrom(stats, 1, end), StatsFrom(stats, 2, end),
      StatsFrom(stats, 3, end), StatsFrom(stats, 4, end), StatsFrom(stats, 5, end), "},\n", rest);
  }

  lemma StatsClose(stats: Stats, rest: string)
    ensures StatsFrom(stats, 5, ",\n" + rest) == "},\n" + rest
  {
    assert "},\n" == "}" + ",\n";
  }

  lemma FiveFields(open: string, d: string, f: string, l: string, r: string, t: string,
                   s1: string, s2: string, s3: string, s4: string, s5: string, close: string, rest: string)
    requires s5 == close + rest && s4 == ", " + t + s5 && s3 == ", " + r + s4 && s2 == ", " + l + s3 && s1 == ", " + f + s2
    ensures open + d + ", " + f + ", " + l + ", " + r + ", " + t + close + rest == open + (d + s1)
  {
  }

  // ---------- The whole document ----------

  /** The counts as a JSON object. */
  function CountsAsJson(counts: Counts): Value {
    Object(map code | code in counts :: Number(Print(counts[code])))
  }

  function StatsAsJson(stats: Stats): Value {
    Object(MapOf(StatsMembers(stats)))
  }

  lemma ObjectReads(inner: string, pairs: seq<(string, Value)>, rest: string)
    requires ReadMembers(inner, true) == Some((pairs, rest))
    ensures ReadValue("{" + inner) == ReadValue(" " + ("{" + inner)) == Some((Object(MapOf(pairs)), rest))
  {
    assert ("{" + inner)[0] == '{' && ("{" + inner)[1..] == inner;
    SkipLead(" ", "{" + inner);
    hide ReadMembers, Skip;
  }

  lemma {:induction false} CountedMap(codes: seq<string>, counts: Counts)
    requires forall i | 0 <= i < |codes| :: codes[i] in counts
    ensures forall code :: code in MapOf(Counted(codes, counts)) <==> code in codes
    ensures forall code | code in codes :: code in counts && MapOf(Counted(codes, counts))[code] == Number(Print(counts[code]))
    decreases |codes|
  {
    if codes != [] {
      var n := |codes| - 1;
      CountedMap(codes[..n], counts);
      assert Counted(codes, counts)[..n] == Counted(codes[..n], counts);
      hide Print;
      assert codes == codes[..n] + [codes[n]];
    }
  }

  // The text behind the opening brace of the counts.
  ghost function CountsInner(counts: Counts, rest: string): string {
    Join(Entries(InOrder(counts.Keys), counts), ',') + ("\n " + ("}" + rest))
  }

  lemma SameCounts(codes: seq<string>, counts: Counts, m: map<string, Value>)
    requires codes == InOrder(counts.Keys)
    requires forall code :: code in m <==> code in codes
    requires forall code | code in codes :: code in counts && m[code] == Number(Print(counts[code]))
    ensures Object(m) == CountsAsJson(counts)
  {
    hide Print;
    assert forall code :: code in codes <==> code in counts.Keys;
    assert m == map code | code in counts :: Number(Print(counts[code]));
  }

  lemma CountsRead(counts: Counts, rest: string)
    ensures ReadValue("{" + CountsInner(counts, rest)) == ReadValue(" " + ("{" + CountsInner(counts, rest))) ==
      Some((CountsAsJson(counts), rest))
  {
    var codes := InOrder(counts.Keys);
    OrderedKeys(counts);
    CountedMap(codes, counts);
    SameCounts(codes, counts, MapOf(Counted(codes, counts)));
    var inner := CountsInner(counts, rest);
    if codes == [] {
      MembersEnd("\n ", rest, true);
      assert Counted(codes, counts) == [] && Join(Entries(codes, counts), ',') == "";
      assert inner == "\n " + ("}" + rest);
    } else {
      EntriesRead(codes, counts, true, "\n ", rest);
      assert Comma(true) + inner == inner;
    }
    hide ReadMembers, ReadValue, InOrder, MapOf, Counted, Join, CountsAsJson, CountsInner;
    ObjectReads(inner, Counted(codes, counts), rest);
  }

  lemma VersionReads(version: string, rest: string)
    ensures ReadValue(" " + ("\"" + Escape(version) + "\"" + rest)) == Some((String(version), rest))
  {
    EscapeIsJson(version, rest);
    hide Escape, ReadBody;
    var t := "\"" + Escape(version) + "\"" + rest;
    assert t == ['"'] + (Escape(version) + ("\"" + rest));
    assert t[0] == '"' && t[1..] == Escape(version) + ("\"" + rest);
    SkipLead(" ", t);
  }

  // The document behind its opening brace, member by member from the last.
  function VersionPart(version: string): string {
    "\"version\": " + ("\"" + Escape(version) + "\"" + ("\n" + ("}" + "\n")))
  }

  function StatsPart(stats: Stats, version: string): string {
    "\"stats\": " + ("{" + StatsFrom(stats, 0, ",\n " + VersionPart(version)))
  }

  ghost function BudgetPart(counts: Counts, stats: Stats, version: string): string {
    "\"budget\": " + ("{" + CountsInner(counts, ",\n " + StatsPart(stats, version)))
  }

  // A member that needs no escaping, by the text of its name and colon.
  lemma LabelReads(name: string, tag: string, item: string, v: Value, rest: string)
    requires (forall i | 0 <= i < |name| :: 'a' <= name[i] <= 'z') && tag == "\"" + name + "\": "
    requires ReadValue(" " + item) == Some((v, rest))
    ensures (tag + item)[0] == '"' && ReadNamed(tag + item) == Some(((name, v), rest))
  {
    PlainName(name);
    NameReads(name, item, v, rest);
    hide Escape, ReadValue, ReadNamed;
  }

  lemma VersionLabel(item: string, v: Value, rest: string)
    requires ReadValue(" " + item) == Some((v, rest))
    ensures ("\"version\": " + item)[0] == '"' && ReadNamed("\"version\": " + item) == Some((("version", v), rest))
  {
    hide *;
    LabelReads("version", "\"version\": ", item, v, rest);
  }

  lemma VersionMember(version: string)
    ensures VersionPart(version)[0] == '"'
    ensures ReadMembers(",\n " + VersionPart(version), false) == Some(([("version", String(version))], "\n"))
  {
    var rest := "\n" + ("}" + "\n");
    VersionReads(version, rest);
    MembersEnd("\n", "\n", false);
    hide Escape, ReadMembers, ReadValue, ReadNamed;
    VersionLabel("\"" + Escape(version) + "\"" + rest, String(version), rest);
    var body := VersionPart(version);
    assert ReadNamed(body) == Some((("version", String(version)), rest)) && body[0] == '"';
    hide *;
    NextMember(body, ("version", String(version)), rest, [], "\n");
    assert [("version", String(version))] + [] == [("version", String(version))];
  }

  // A member on a line of its own, after a comma.
  lemma NextMember(body: string, member: (string, Value), more: string, pairs: seq<(string, Value)>, x: string)
    requires body != "" && body[0] == '"'
    requires ReadNamed(body) == Some((member, more)) && ReadMembers(more, false) == Some((pairs, x))
    ensures ReadMembers(",\n " + body, false) == Some(([member] + pairs, x))
  {
    hide ReadNamed, ReadMembers;
    MemberReads(false, "\n ", body, member, more, pairs, x);
    assert ",\n " == "," + "\n ";
    assert Comma(false) + ("\n " + body) == ",\n " + body;
  }

  lemma StatsLabel(item: string, v: Value, rest: string)
    requires ReadValue(" " + item) == Some((v, rest))
    ensures ("\"stats\": " + item)[0] == '"' && ReadNamed("\"stats\": " + item) == Some((("stats", v), rest))
  {
    hide *;
    LabelReads("stats", "\"stats\": ", item, v, rest);
  }

  lemma BudgetLabel(item: string, v: Value, rest: string)
    requires ReadValue(" " + item) == Some((v, rest))
    ensures ("\"budget\": " + item)[0] == '"' && ReadNamed("\"budget\": " + item) == Some((("budget", v), rest))
  {
    hide *;
    LabelReads("budget", "\"budget\": ", item, v, rest);
  }

  lemma StatsNamed(stats: Stats, rest: string)
    ensures var body := "\"stats\": " + ("{" + StatsFrom(stats, 0, rest));
      body[0] == '"' && ReadNamed(body) == Some((("stats", StatsAsJson(stats)), rest))
  {
    StatsRead(stats, 0, rest);
    assert StatsMembers(stats)[0..] == StatsMembers(stats) by { hide ReadMembers; }
    hide ReadMembers, ReadValue, ReadNamed, StatsFrom, StatsMembers, MapOf;
    ObjectReads(StatsFrom(stats, 0, rest), StatsMembers(stats), rest);
    StatsLabel("{" + StatsFrom(stats, 0, rest), StatsAsJson(stats), rest);
  }

  lemma CountsNamed(counts: Counts, rest: string)
    ensures var body := "\"budget\": " + ("{" + CountsInner(counts, rest));
      body[0] == '"' && ReadNamed(body) == Some((("budget", CountsAsJson(counts)), rest))
  {
    CountsRead(counts, rest);
    hide ReadMembers, ReadValue, ReadNamed, CountsInner, CountsAsJson;
    BudgetLabel("{" + CountsInner(counts, rest), CountsAsJson(counts), rest);
  }

  lemma StatsMember(stats: Stats, version: string)
    ensures ReadMembers(",\n " + StatsPart(stats, version), false) ==
      Some(([("stats", StatsAsJson(stats)), ("version", String(version))], "\n"))
  {
    VersionMember(version);
    StatsNamed(stats, ",\n " + VersionPart(version));
    hide ReadMembers, ReadNamed, StatsFrom, VersionPart, StatsAsJson;
    var first, last := ("stats", StatsAsJson(stats)), ("version", String(version));
    NextMember(StatsPart(stats, version), first, ",\n " + VersionPart(version), [last], "\n");
    assert [first] + [last] == [first, last];
  }

  lemma BudgetMember(counts: Counts, stats: Stats, version: string)
    ensures ReadMembers("\n " + BudgetPart(counts, stats, version), true) ==
      Some(([("budget", CountsAsJson(counts)), ("stats", StatsAsJson(stats)), ("version", String(version))], "\n"))
  {
    var rest := ",\n " + StatsPart(stats, version);
    StatsMember(stats, version);
    CountsNamed(counts, rest);
    hide ReadMembers, ReadNamed, CountsInner, StatsPart, CountsAsJson, StatsAsJson;
    var body := BudgetPart(counts, stats, version);
    var a, b, c := ("budget", CountsAsJson(counts)), ("stats", StatsAsJson(stats)), ("version", String(version));
    MemberReads(true, "\n ", body, a, rest, [b, c], "\n");
    assert [a] + [b, c] == [a, b, c];
    assert Comma(true) + ("\n " + body) == "\n " + body;
  }

  lemma TailLayout(stats: Stats, version: string)
    ensures TailText(stats, version) == " " + StatsPart(stats, version)
  {
    var rest := " \"version\": \"" + Escape(version) + "\"\n" + "}\n";
    StatsLayout(stats, rest);
    VersionLayout(Escape(version));
    hide StatsText, StatsFrom, Escape;
    assert TailText(stats, version) == StatsText(stats) + rest;
    assert ",\n" + (" " + VersionPart(version)) == ",\n " + VersionPart(version);
    assert " \"stats\": {" + StatsFrom(stats, 0, ",\n" + rest) == " " + ("\"stats\": " + ("{" + StatsFrom(stats, 0, ",\n" + rest)));
  }

  lemma VersionLayout(version: string)
    ensures " \"version\": \"" + version + "\"\n" + "}\n" == " " + ("\"version\": " + ("\"" + version + "\"" + ("\n" + ("}" + "\n"))))
  {
    assert "\"\n" == "\"" + "\n" && "}\n" == "}" + "\n";
    assert " \"version\": \"" == " " + "\"version\": " + "\"";
  }

  lemma BudgetLayout(counts: Counts, stats: Stats, version: string)
    ensures BudgetText(counts, stats, version) == "{" + ("\n " + BudgetPart(counts, stats, version))
  {
    TailLayout(stats, version);
    OrderedKeys(counts);
    var joined := Join(Entries(InOrder(counts.Keys), counts), ',');
    hide Join, Entries, InOrder, TailText, StatsPart;
    CountsLayout(joined, StatsPart(stats, version));
  }

  lemma CountsLayout(joined: string, more: string)
    ensures "{\n" + (" \"" + "budget" + "\": {" + joined + "\n }" + ",\n") + (" " + more) ==
      "{" + ("\n " + ("\"budget\": " + ("{" + (joined + ("\n " + ("}" + (",\n " + more)))))))
  {
    assert "{\n" == "{" + "\n" && "\n }" == "\n " + "}" && ",\n " == ",\n" + " ";
    assert " \"" + "budget" + "\": {" == " " + "\"budget\": " + "{";
    assert "\n " == "\n" + " ";
  }

  /** Every budget, whatever its codes, is a JSON document that a standard reader takes for its counts, statistics and
      version, also where the budget's own reader loses codes. */
  lemma BudgetReads(counts: Counts, stats: Stats, version: string)
    ensures ReadValue(BudgetText(counts, stats, version)) ==
      Some((Object(map["budget" := CountsAsJson(counts), "stats" := StatsAsJson(stats), "version" := String(version)]), "\n"))
  {
    BudgetLayout(counts, stats, version);
    BudgetMember(counts, stats, version);
    hide ReadMembers, ReadValue, BudgetText, BudgetPart, CountsAsJson, StatsAsJson;
    var members := [("budget", CountsAsJson(counts)), ("stats", StatsAsJson(stats)), ("version", String(version))];
    ObjectReads("\n " + BudgetPart(counts, stats, version), members, "\n");
    MapOfThree(members[0], members[1], members[2]);
  }

  lemma MapOfThree(a: (string, Value), b: (string, Value), c: (string, Value))
    ensures MapOf([a, b, c]) == map[a.0 := a.1, b.0 := b.1, c.0 := c.1]
  {
    assert [a, b, c][..2] == [a, b] && [a, b][..1] == [a] && [a][..0] == [];
    assert MapOf([a]) == MapOf([a][..0])[a.0 := a.1];
    assert MapOf([a, b]) == MapOf([a, b][..1])[b.0 := b.1];
  }
}
