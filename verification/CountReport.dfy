/** Rule counts written as a budget, read back and compared (`report.rs`). */
module CountReport {
  import opened KeyOrder
  import opened TextLimits
  import opened TextOutput
  import opened TextParts
  import opened Wrappers
  import JsonReader

  const USIZE_LIMIT: nat := 0x1_0000_0000_0000_0000
  type usize = n: nat | n < USIZE_LIMIT
  type Counts = map<string, usize>

  // ---------- Codes in order ----------

  lemma PrecedesIsStrict()
    ensures StrictTotal(Precedes)
  {
    forall a, b, c ensures !Precedes(a, a) && (a != b ==> (Precedes(a, b) <==> !Precedes(b, a))) &&
                           (Precedes(a, b) && Precedes(b, c) ==> Precedes(a, c))
    {
      PrecedesOrders(a, b, c);
    }
  }

  // The order in which a BTreeMap visits its keys.
  ghost function InOrder(keys: set<string>): (codes: seq<string>)
    ensures forall x :: x in codes <==> x in keys
  {
    PrecedesIsStrict();
    Listed(keys, Precedes)
  }

  method CodesInOrder(keys: set<string>) returns (codes: seq<string>)
    ensures codes == InOrder(keys)
    ensures forall i, j | 0 <= i < j < |codes| :: LexicallyBelow(codes[i], codes[j])
    ensures forall x :: x in codes <==> x in keys
  {
    PrecedesIsStrict();
    hide Precedes, LexicallyBelow, StrictTotal;
    codes := ListKeys(keys, Precedes);
    forall i, j | 0 <= i < j < |codes| ensures LexicallyBelow(codes[i], codes[j]) {
      PrecedesIff(codes[i], codes[j]);
    }
  }

  // ---------- Comparing counts ----------

  function CountOf(counts: Counts, code: string): usize {
    if code in counts then counts[code] else 0
  }

  datatype Change = Change(code: string, before: usize, after: usize)

  // The codes whose count differs in one direction, in the order of the codes.
  function Changes(codes: seq<string>, base: Counts, head: Counts, grown: bool): seq<Change>
    decreases |codes|
  {
    if codes == [] then []
    else
      var code := codes[|codes| - 1];
      var before, after := CountOf(base, code), CountOf(head, code);
      Changes(codes[..|codes| - 1], base, head, grown) +
      if (if grown then after > before else after < before) then [Change(code, before, after)] else []
  }

  ghost function Regressions(base: Counts, head: Counts): seq<Change> {
    Changes(InOrder(base.Keys + head.Keys), base, head, true)
  }

  ghost function Improvements(base: Counts, head: Counts): seq<Change> {
    Changes(InOrder(base.Keys + head.Keys), base, head, false)
  }

  lemma ChangesGrow(codes: seq<string>, i: nat, base: Counts, head: Counts, grown: bool)
    requires i < |codes|
    ensures var before, after := CountOf(base, codes[i]), CountOf(head, codes[i]);
      Changes(codes[..i + 1], base, head, grown) == Changes(codes[..i], base, head, grown) +
        if (if grown then after > before else after < before) then [Change(codes[i], before, after)] else []
  {
    assert codes[..i + 1][..i] == codes[..i];
  }

  lemma NoChanges(base: Counts, head: Counts, grown: bool)
    ensures Changes([], base, head, grown) == []
  {
  }

  method CollectChanges(base: Counts, head: Counts, grown: bool) returns (r: seq<Change>)
    ensures r == Changes(InOrder(base.Keys + head.Keys), base, head, grown)
  {
    hide InOrder, Changes, CountOf;
    var codes := CodesInOrder(base.Keys + head.Keys);
    r := [];
    NoChanges(base, head, grown);
    assert codes[..0] == [];
    for i := 0 to |codes|
      invariant r == Changes(codes[..i], base, head, grown)
    {
      var before, after := CountOf(base, codes[i]), CountOf(head, codes[i]);
      ChangesGrow(codes, i, base, head, grown);
      if (if grown then after > before else after < before) { r := r + [Change(codes[i], before, after)]; }
    }
    assert codes[..|codes|] == codes;
  }

  lemma {:induction false} ChangesExactly(codes: seq<string>, base: Counts, head: Counts, grown: bool, c: Change)
    ensures c in Changes(codes, base, head, grown) <==>
      && c.code in codes && c.before == CountOf(base, c.code) && c.after == CountOf(head, c.code)
      && (if grown then c.after > c.before else c.after < c.before)
    decreases |codes|
  {
    if codes != [] {
      var n := |codes| - 1;
      ChangesExactly(codes[..n], base, head, grown, c);
      assert codes == codes[..n] + [codes[n]];
    }
  }

  /** There is no regression exactly when no count grew, codes that are missing counting zero. */
  lemma NoRegressionIff(base: Counts, head: Counts)
    ensures Regressions(base, head) == [] <==> forall code :: CountOf(head, code) <= CountOf(base, code)
  {
    hide Changes;
    var codes := InOrder(base.Keys + head.Keys);
    var r := Regressions(base, head);
    if r != [] {
      ChangesExactly(codes, base, head, true, r[0]);
      assert CountOf(head, r[0].code) > CountOf(base, r[0].code);
    } else {
      forall code ensures CountOf(head, code) <= CountOf(base, code) {
        var c := Change(code, CountOf(base, code), CountOf(head, code));
        ChangesExactly(codes, base, head, true, c);
        CodeListed(base, head, code);
      }
    }
  }

  /** A change is reported as a regression exactly when it names a code whose count grew, with both counts, a missing
      code counting zero. */
  lemma RegressionIff(base: Counts, head: Counts, c: Change)
    ensures c in Regressions(base, head) <==>
      && (c.code in base || c.code in head) && c.after > c.before
      && c.before == (if c.code in base then base[c.code] else 0)
      && c.after == (if c.code in head then head[c.code] else 0)
  {
    ChangesExactly(InOrder(base.Keys + head.Keys), base, head, true, c);
    CodeListed(base, head, c.code);
    hide InOrder, Changes;
  }

  /** Each code is reported at most once, in character order. */
  lemma RegressionsAscend(base: Counts, head: Counts)
    ensures forall i, j | 0 <= i < j < |Regressions(base, head)| ::
      LexicallyBelow(Regressions(base, head)[i].code, Regressions(base, head)[j].code)
  {
    var codes := InOrder(base.Keys + head.Keys);
    CodesAscend(base.Keys + head.Keys);
    hide InOrder, Changes, LexicallyBelow;
    ChangesAscend(codes, base, head, true);
    assert Regressions(base, head) == Changes(codes, base, head, true);
  }

  lemma CodesAscend(keys: set<string>)
    ensures forall i, j | 0 <= i < j < |InOrder(keys)| :: LexicallyBelow(InOrder(keys)[i], InOrder(keys)[j])
  {
    PrecedesIsStrict();
    hide Precedes, LexicallyBelow, StrictTotal;
    forall i, j | 0 <= i < j < |InOrder(keys)| ensures LexicallyBelow(InOrder(keys)[i], InOrder(keys)[j]) {
      PrecedesIff(InOrder(keys)[i], InOrder(keys)[j]);
    }
  }

  ghost predicate Ascending(changes: seq<Change>) {
    forall i, j | 0 <= i < j < |changes| :: LexicallyBelow(changes[i].code, changes[j].code)
  }

  lemma AscendingAppend(front: seq<Change>, last: Change)
    requires Ascending(front) && forall i | 0 <= i < |front| :: LexicallyBelow(front[i].code, last.code)
    ensures Ascending(front + [last])
  {
    hide LexicallyBelow;
  }

  lemma {:induction false} ChangesAscend(codes: seq<string>, base: Counts, head: Counts, grown: bool)
    requires forall i, j | 0 <= i < j < |codes| :: LexicallyBelow(codes[i], codes[j])
    ensures Ascending(Changes(codes, base, head, grown))
    decreases |codes|
  {
    hide LexicallyBelow;
    if codes != [] {
      var n := |codes| - 1;
      ChangesAscend(codes[..n], base, head, grown);
      var front := Changes(codes[..n], base, head, grown);
      hide Ascending;
      forall i | 0 <= i < |front| ensures LexicallyBelow(front[i].code, codes[n]) {
        ChangesExactly(codes[..n], base, head, grown, front[i]);
        var k :| 0 <= k < n && codes[..n][k] == front[i].code;
      }
      AscendingAppend(front, Change(codes[n], CountOf(base, codes[n]), CountOf(head, codes[n])));
    }
  }

  lemma CodeListed(base: Counts, head: Counts, code: string)
    ensures code in InOrder(base.Keys + head.Keys) <==> code in base || code in head
  {
    assert code in InOrder(base.Keys + head.Keys) <==> code in base.Keys + head.Keys;
  }

  function Reversed(c: Change): Change {
    Change(c.code, c.after, c.before)
  }

  lemma {:induction false} ChangesMirror(codes: seq<string>, base: Counts, head: Counts)
    ensures |Changes(codes, base, head, false)| == |Changes(codes, head, base, true)|
    ensures forall i | 0 <= i < |Changes(codes, base, head, false)| ::
      Changes(codes, base, head, false)[i] == Reversed(Changes(codes, head, base, true)[i])
    decreases |codes|
  {
    if codes != [] { ChangesMirror(codes[..|codes| - 1], base, head); }
  }

  /** Improvements are the regressions of going back, read backwards. */
  lemma ImprovementsMirror(base: Counts, head: Counts)
    ensures |Improvements(base, head)| == |Regressions(head, base)|
    ensures forall i | 0 <= i < |Improvements(base, head)| :: Improvements(base, head)[i] == Reversed(Regressions(head, base)[i])
  {
    assert base.Keys + head.Keys == head.Keys + base.Keys;
    ChangesMirror(InOrder(base.Keys + head.Keys), base, head);
  }

  // ---------- Writing ----------

  function HexDigit(n: nat): char
    requires n < 16
  {
    if n < 10 then (48 + n) as char else (87 + n) as char
  }

  function EscapeChar(c: char): string {
    if c == '"' then "\\\""
    else if c == '\\' then "\\\\"
    else if c == '\n' then "\\n"
    else if c == '\r' then "\\r"
    else if c == '\t' then "\\t"
    else if IsControl(c) then "\\u00" + [HexDigit(c as int / 16), HexDigit(c as int % 16)]
    else [c]
  }

  function Escape(s: string): string {
    if s == "" then "" else EscapeChar(s[0]) + Escape(s[1..])
  }

  // One entry, with the line break before it.
  function Entry(code: string, count: nat): string {
    "\n  \"" + Escape(code) + "\": " + Print(count)
  }

  function Entries(codes: seq<string>, counts: Counts): seq<string>
    requires forall i | 0 <= i < |codes| :: codes[i] in counts
  {
    seq(|codes|, i requires 0 <= i < |codes| => Entry(codes[i], counts[codes[i]]))
  }

  ghost function CountObjectText(key: string, counts: Counts, commaAfter: bool): string {
    " \"" + key + "\": {" + Join(Entries(InOrder(counts.Keys), counts), ',') + "\n }" + (if commaAfter then ",\n" else "\n")
  }

  datatype Stats = Stats(dart: nat, files: nat, lines: nat, rust: nat, ts: nat)

  function FieldText(name: string, n: nat): string {
    "\"" + name + "\": " + Print(n)
  }

  function StatsText(stats: Stats): string {
    " \"stats\": {" + FieldText("dart", stats.dart) + ", " + FieldText("files", stats.files) + ", " + FieldText("lines", stats.lines)
    + ", " + FieldText("rust", stats.rust) + ", " + FieldText("ts", stats.ts) + "},\n"
  }

  // What follows the counts in a budget.
  function TailText(stats: Stats, version: string): string {
    StatsText(stats) + " \"version\": \"" + Escape(version) + "\"\n" + "}\n"
  }

  ghost function BudgetText(counts: Counts, stats: Stats, version: string): string {
    "{\n" + CountObjectText("budget", counts, true) + TailText(stats, version)
  }

  lemma HexDigitReads(n: nat)
    requires n < 16
    ensures JsonReader.HexDigitValue(HexDigit(n)) == Some(n)
  {
  }

  lemma EscapeCharReads(c: char, x: string)
    ensures JsonReader.ReadChar(EscapeChar(c) + x) == Some((c, |EscapeChar(c)|))
    ensures (EscapeChar(c) + x)[0] != '"' && (EscapeChar(c) + x)[|EscapeChar(c)|..] == x
  {
    var e := EscapeChar(c);
    var t := e + x;
    assert t[0] == e[0] && (|e| > 1 ==> t[1] == e[1]);
    if |e| == 6 {
      assert t[2] == '0' && t[3] == '0' && t[4] == HexDigit(c as int / 16) && t[5] == HexDigit(c as int % 16);
      HexDigitReads(c as int / 16);
      HexDigitReads(c as int % 16);
      assert JsonReader.ReadHex(t[2..]) == Some(c);
    }
  }

  /** Every escaped code is a JSON string literal for that code, even where the budget's own reader cannot read it. */
  lemma {:induction false} EscapeIsJson(s: string, x: string)
    ensures JsonReader.ReadBody(Escape(s) + ("\"" + x)) == Some((s, x))
  {
    var t := Escape(s) + ("\"" + x);
    if s == "" {
      assert t[0] == '"' && t[1..] == x;
    } else {
      var more := Escape(s[1..]) + ("\"" + x);
      EscapeUnfold(s, "\"" + x);
      EscapeCharReads(s[0], more);
      EscapeIsJson(s[1..], x);
      hide EscapeChar, Escape, JsonReader.ReadChar;
      assert t != "";
      assert [s[0]] + s[1..] == s;
    }
  }

  lemma EscapeUnfold(s: string, rest: string)
    requires s != ""
    ensures Escape(s) + rest == EscapeChar(s[0]) + (Escape(s[1..]) + rest)
  {
  }

  // One line per code, each but the last with a comma.
  method WriteCountObject(output: Output, key: string, counts: Counts, commaAfter: bool)
    modifies output
    ensures output.text == old(output.text) + CountObjectText(key, counts, commaAfter)
  {
    hide Join, Escape, Print, Entry, CountObjectText;
    ghost var before := output.text;
    var codes := CodesInOrder(counts.Keys);
    OrderedKeys(counts);
    ghost var entries := Entries(codes, counts);
    ghost var opening := " \"" + key + "\": {";
    ghost var lead := before + opening;
    output.Push(" \"" + key + "\": {\n");
    LinesBegin(entries);
    Regroup(before, opening, "\n");
    hide Lines;
    for i := 0 to |codes|
      invariant output.text == lead + (Lines(entries, i) + "\n")
    {
      var comma := if i + 1 == |codes| then "" else ",";
      var line := "  \"" + Escape(codes[i]) + "\": " + Print(counts[codes[i]]) + comma + "\n";
      output.Push(line);
      LineWritten(entries, i, codes[i], counts[codes[i]]);
      Regroup(lead, Lines(entries, i) + "\n", line);
    }
    LinesEnd(entries);
    var closing := if commaAfter then " },\n" else " }\n";
    output.Push(closing);
    ObjectClosed(before, key, counts, commaAfter);
  }

  method WriteBudget(output: Output, counts: Counts, stats: Stats, version: string)
    modifies output
    ensures output.text == old(output.text) + BudgetText(counts, stats, version)
  {
    hide CountObjectText, StatsText, Escape;
    ghost var before := output.text;
    output.Push("{\n");
    WriteCountObject(output, "budget", counts, true);
    output.Push(StatsText(stats));
    output.Push(" \"version\": \"" + Escape(version) + "\"\n");
    output.Push("}\n");
    assert output.text == before + ("{\n" + CountObjectText("budget", counts, true) + TailText(stats, version));
  }

  lemma Regroup(a: string, b: string, c: string)
    ensures a + b + c == a + (b + c)
  {
  }

  lemma ObjectClosed(before: string, key: string, counts: Counts, commaAfter: bool)
    requires forall i | 0 <= i < |InOrder(counts.Keys)| :: InOrder(counts.Keys)[i] in counts
    ensures before + (" \"" + key + "\": {") + (Join(Entries(InOrder(counts.Keys), counts), ',') + "\n") +
      (if commaAfter then " },\n" else " }\n") == before + CountObjectText(key, counts, commaAfter)
  {
    hide Join, Entries;
    var joined := Join(Entries(InOrder(counts.Keys), counts), ',');
    if commaAfter {
      assert "\n" + " },\n" == "\n }" + ",\n";
    } else {
      assert "\n" + " }\n" == "\n }" + "\n";
    }
  }

  lemma OrderedKeys(counts: Counts)
    ensures forall i | 0 <= i < |InOrder(counts.Keys)| :: InOrder(counts.Keys)[i] in counts
  {
    var codes := InOrder(counts.Keys);
    forall i | 0 <= i < |codes| ensures codes[i] in counts {
      assert codes[i] in codes;
    }
  }

  // The first i entries, each but the last of all followed by its comma.
  ghost function Lines(entries: seq<string>, i: nat): string
    requires i <= |entries|
  {
    if i == 0 then "" else Lines(entries, i - 1) + entries[i - 1] + (if i == |entries| then "" else ",")
  }

  lemma LinesBegin(entries: seq<string>)
    ensures Lines(entries, 0) == ""
  {
  }

  lemma LineWritten(entries: seq<string>, i: nat, code: string, count: nat)
    requires i < |entries| && entries[i] == Entry(code, count)
    ensures Lines(entries, i) + "\n" +
      ("  \"" + Escape(code) + "\": " + Print(count) + (if i + 1 == |entries| then "" else ",") + "\n") ==
      Lines(entries, i + 1) + "\n"
  {
    hide Escape, Print;
    var comma := if i + 1 == |entries| then "" else ",";
    var text, number := Escape(code), Print(count);
    assert "\n" + ("  \"" + text + "\": " + number + comma + "\n") == Entry(code, count) + comma + "\n" by {
      assert "\n" + "  \"" == "\n  \"";
    }
  }

  lemma {:induction false} LinesJoin(entries: seq<string>, i: nat)
    requires i < |entries|
    ensures Lines(entries, i) + Join(entries[i..], ',') == Join(entries, ',')
    decreases i
  {
    if i == 0 {
      assert entries[0..] == entries;
    } else {
      LinesJoin(entries, i - 1);
      var tail := entries[i - 1..];
      assert tail[1..] == entries[i..] && tail[0] == entries[i - 1];
      JoinHead(tail, ',');
      hide Join;
      var done, last, rest := Lines(entries, i - 1), entries[i - 1], Join(entries[i..], ',');
      assert done + (last + "," + rest) == done + last + "," + rest;
    }
  }

  lemma LinesEnd(entries: seq<string>)
    ensures Lines(entries, |entries|) == Join(entries, ',')
  {
    if entries != [] {
      var n := |entries| - 1;
      LinesJoin(entries, n);
      assert entries[n..] == [entries[n]];
    }
  }

  // ---------- Matching braces ----------

  datatype Lexer = Lexer(depth: int, inString: bool, escaped: bool)

  const START := Lexer(0, false, false)
  const BODY := Lexer(1, false, false)
  const STRING := Lexer(1, true, false)

  function Read(st: Lexer, c: char): Lexer {
    if st.inString then
      if st.escaped then st.(escaped := false)
      else if c == '\\' then st.(escaped := true)
      else if c == '"' then st.(inString := false)
      else st
    else if c == '"' then st.(inString := true)
    else if c == '{' then st.(depth := st.depth + 1)
    else if c == '}' then st.(depth := st.depth - 1)
    else st
  }

  function ReadAll(st: Lexer, s: string): Lexer
    decreases |s|
  {
    if s == "" then st else ReadAll(Read(st, s[0]), s[1..])
  }

  // The character c, read in state st, ends the object.
  predicate Ends(st: Lexer, c: char) {
    !st.inString && c == '}' && st.depth == 1
  }

  // The position at which s, read from state st, first ends an object.
  function EndOf(s: string, st: Lexer): Option<nat> {
    if s == "" then None
    else if Ends(st, s[0]) then Some(0)
    else
      var rest := EndOf(s[1..], Read(st, s[0]));
      if rest.Some? then Some(1 + rest.value) else None
  }

  /** The end found is where the nesting outside strings first returns to nothing. */
  lemma {:induction false} EndIsFirst(s: string, st: Lexer)
    ensures EndOf(s, st).Some? ==> EndOf(s, st).value < |s| && Ends(ReadAll(st, s[..EndOf(s, st).value]), s[EndOf(s, st).value])
    ensures forall i | 0 <= i < (if EndOf(s, st).Some? then EndOf(s, st).value else |s|) :: !Ends(ReadAll(st, s[..i]), s[i])
  {
    hide Read, Ends;
    if s != "" {
      var tail := s[1..];
      EndIsFirst(tail, Read(st, s[0]));
      forall i | 0 <= i < |s| ensures ReadAll(st, s[..i]) == if i == 0 then st else ReadAll(Read(st, s[0]), tail[..i - 1]) {
        if i > 0 { assert s[..i][1..] == tail[..i - 1] && s[..i][0] == s[0]; }
      }
    }
  }

  method FindMatchingBrace(content: string, open: nat) returns (r: Option<nat>)
    requires open <= |content|
    ensures var end := EndOf(content[open..], START); r == if end.Some? then Some(open + end.value) else None
  {
    var depth, inString, escaped := 0, false, false;
    var relative := 0;
    ghost var text := content[open..];
    assert text[0..] == text;
    while relative < |content| - open
      invariant 0 <= relative <= |content| - open
      invariant EndOf(text, START) ==
        var rest := EndOf(text[relative..], Lexer(depth, inString, escaped));
        if rest.Some? then Some(relative + rest.value) else None
    {
      var ch := content[open + relative];
      assert text[relative] == ch && text[relative..][1..] == text[relative + 1..];
      relative := relative + 1;
      if inString {
        if escaped {
          escaped := false;
        } else if ch == '\\' {
          escaped := true;
        } else if ch == '"' {
          inString := false;
        }
      } else if ch == '"' {
        inString := true;
      } else if ch == '{' {
        depth := depth + 1;
      } else if ch == '}' {
        depth := depth - 1;
        if depth == 0 { return Some(open + relative - 1); }
      }
    }
    return None;
  }

  // ---------- Reading ----------

  predicate IsQuote(c: char) {
    c == '"'
  }

  // The first position at which needle occurs.
  function Find(s: string, needle: string): Option<nat> {
    if |s| < |needle| then None
    else if s[..|needle|] == needle then Some(0)
    else if s == "" then None
    else
      var rest := Find(s[1..], needle);
      if rest.Some? then Some(1 + rest.value) else None
  }

  function ParseUsize(s: string): Option<usize> {
    var digits := if s != "" && s[0] == '+' then s[1..] else s;
    if IsNumber(digits) && Decimal(digits) < USIZE_LIMIT then Some(Decimal(digits)) else None
  }

  /** One leading plus is read past; otherwise a count is digits alone, below the limit. */
  lemma UsizeIff(s: string, n: usize)
    ensures ParseUsize(s) == Some(n) <==>
      exists digits: string :: (s == digits || s == "+" + digits) && IsNumber(digits) && Decimal(digits) == n
  {
    hide Decimal;
    if ParseUsize(s) == Some(n) {
      var digits := if s != "" && s[0] == '+' then s[1..] else s;
      assert s == digits || s == "+" + digits;
    }
    if digits: string :| (s == digits || s == "+" + digits) && IsNumber(digits) && Decimal(digits) == n {
      assert s == "+" + digits ==> s[0] == '+' && s[1..] == digits;
      assert s == digits ==> IsDigit(s[0]);
    }
  }

  function ParseEntry(entry: string): Option<(string, usize)> {
    var colon := Index(entry, ':');
    if colon == |entry| then None
    else
      var count := ParseUsize(Trim(entry[colon + 1..], IsWhiteSpace));
      if count.None? then None else Some((Trim(Trim(entry[..colon], IsWhiteSpace), IsQuote), count.value))
  }

  // Later entries replace earlier ones.
  function Collect(entries: seq<string>): Counts
    decreases |entries|
  {
    if entries == [] then map[]
    else
      var counts, last := Collect(entries[..|entries| - 1]), ParseEntry(entries[|entries| - 1]);
      if last.Some? then counts[last.value.0 := last.value.1] else counts
  }

  function ParseCountObject(content: string, name: string): Option<Counts> {
    var start := Find(content, "\"" + name + "\"");
    if start.None? then None
    else
      FindWithin(content, "\"" + name + "\"");
      var from := content[start.value..];
      var brace := Index(from, '{');
      if brace == |from| then None
      else
        var end := EndOf(from[brace..], START);
        if end.None? then None
        else
          EndAfterBrace(from[brace..]);
          Some(Collect(Split(from[brace..][1..end.value], ',')))
  }

  lemma {:induction false} FindWithin(s: string, needle: string)
    ensures Find(s, needle).Some? ==> Find(s, needle).value + |needle| <= |s|
  {
    if |s| >= |needle| && s[..|needle|] != needle && s != "" { FindWithin(s[1..], needle); }
  }

  lemma EndAfterBrace(s: string)
    requires s != "" && s[0] == '{' && EndOf(s, START).Some?
    ensures 1 <= EndOf(s, START).value <= |s|
  {
    EndIsFirst(s, START);
  }

  // ---------- Reading what was written ----------

  // Codes that are written as they are and hold no separator.
  predicate Plain(code: string) {
    forall i | 0 <= i < |code| :: code[i] !in {'"', '\\', ',', ':'} && !IsControl(code[i])
  }

  // What reading makes of a written code.
  function Recovered(code: string): string {
    Trim("\"" + Escape(code) + "\"", IsQuote)
  }

  // Text with neither quotes nor braces leaves the lexer where it is.
  predicate Inert(s: string) {
    forall i | 0 <= i < |s| :: s[i] !in {'"', '{', '}'}
  }

  lemma {:induction false} EndPastInert(s: string, rest: string)
    requires Inert(s)
    ensures EndOf(s + rest, BODY) == var r := EndOf(rest, BODY); if r.Some? then Some(|s| + r.value) else None
  {
    if s == "" {
      assert s + rest == rest;
    } else {
      assert (s + rest)[0] == s[0] && (s + rest)[1..] == s[1..] + rest;
      EndPastInert(s[1..], rest);
    }
  }

  lemma EndPastOne(c: char, rest: string, st: Lexer)
    requires !Ends(st, c)
    ensures EndOf([c] + rest, st) == var r := EndOf(rest, Read(st, c)); if r.Some? then Some(1 + r.value) else None
  {
    assert ([c] + rest)[1..] == rest;
  }

  lemma EndPastTwo(c: char, d: char, rest: string)
    requires c == '\\'
    ensures EndOf([c, d] + rest, STRING) == var r := EndOf(rest, STRING); if r.Some? then Some(2 + r.value) else None
  {
    EndPastOne(c, [d] + rest, STRING);
    EndPastOne(d, rest, STRING.(escaped := true));
    assert [c, d] + rest == [c] + ([d] + rest);
  }

  lemma EndPastHex(a: nat, b: nat, rest: string)
    requires a < 16 && b < 16
    ensures EndOf("\\u00" + [HexDigit(a), HexDigit(b)] + rest, STRING) ==
      var r := EndOf(rest, STRING); if r.Some? then Some(6 + r.value) else None
  {
    var x, y := HexDigit(a), HexDigit(b);
    assert Read(STRING, x) == STRING && Read(STRING, y) == STRING && Read(STRING, '0') == STRING;
    hide EndOf, HexDigit, Read;
    var t4 := [y] + rest;
    var t3 := [x] + t4;
    var t2 := ['0'] + t3;
    EndPastOne(y, rest, STRING);
    EndPastOne(x, t4, STRING);
    EndPastOne('0', t3, STRING);
    EndPastOne('0', t2, STRING);
    EndPastTwo('\\', 'u', ['0'] + t2);
    HexLayout(x, y, rest);
  }

  lemma HexLayout(x: char, y: char, rest: string)
    ensures "\\u00" + [x, y] + rest == ['\\', 'u'] + (['0'] + (['0'] + ([x] + ([y] + rest))))
  {
    assert "\\u00" == ['\\', 'u'] + ['0'] + ['0'];
  }

  lemma EndPastChar(c: char, rest: string)
    ensures EndOf(EscapeChar(c) + rest, STRING) ==
      var r := EndOf(rest, STRING); if r.Some? then Some(|EscapeChar(c)| + r.value) else None
  {
    hide EndOf;
    if c == '"' || c == '\\' || c == '\n' || c == '\r' || c == '\t' {
      var e := EscapeChar(c);
      assert e == [e[0], e[1]];
      EndPastTwo(e[0], e[1], rest);
    } else if IsControl(c) {
      EndPastHex(c as int / 16, c as int % 16, rest);
    } else {
      EndPastOne(c, rest, STRING);
    }
  }

  lemma {:induction false} EndPastEscape(s: string, rest: string)
    ensures EndOf(Escape(s) + rest, STRING) ==
      var r := EndOf(rest, STRING); if r.Some? then Some(|Escape(s)| + r.value) else None
  {
    hide EndOf, EscapeChar;
    if s == "" {
      assert Escape(s) + rest == rest;
    } else {
      EndPastEscape(s[1..], rest);
      EndPastChar(s[0], Escape(s[1..]) + rest);
      assert Escape(s) + rest == EscapeChar(s[0]) + (Escape(s[1..]) + rest);
    }
  }

  lemma EndPastEntry(code: string, count: nat, rest: string)
    ensures EndOf(Entry(code, count) + rest, BODY) ==
      var r := EndOf(rest, BODY); if r.Some? then Some(|Entry(code, count)| + r.value) else None
  {
    hide EndOf, Escape, Print;
    var text, number := Escape(code), Print(count);
    PrintRoundTrip(count);
    var after := ": " + number;
    assert Inert(after) by { hide IsNumber, Decimal; InertNumber(number); }
    EndPastInert(after, rest);
    EndPastOne('"', after + rest, STRING);
    EndPastEscape(code, ['"'] + (after + rest));
    EndPastOne('"', text + (['"'] + (after + rest)), BODY);
    EndPastInert("\n  ", ['"'] + (text + (['"'] + (after + rest))));
    assert Entry(code, count) + rest == "\n  " + (['"'] + (text + (['"'] + (after + rest))));
  }

  lemma InertNumber(number: string)
    requires IsNumber(number)
    ensures Inert(": " + number)
  {
  }

  lemma {:induction false} EndPastEntries(codes: seq<string>, counts: Counts, rest: string)
    requires forall i | 0 <= i < |codes| :: codes[i] in counts
    ensures EndOf(Join(Entries(codes, counts), ',') + rest, BODY) ==
      var r := EndOf(rest, BODY); if r.Some? then Some(|Join(Entries(codes, counts), ',')| + r.value) else None
    decreases |codes|
  {
    hide EndOf, Entry;
    var entries := Entries(codes, counts);
    if codes == [] {
      assert Join(entries, ',') + rest == rest;
    } else {
      assert entries[0] == Entry(codes[0], counts[codes[0]]);
      if |codes| == 1 {
        EndPastEntry(codes[0], counts[codes[0]], rest);
      } else {
        assert entries[1..] == Entries(codes[1..], counts);
        var more := Join(entries[1..], ',');
        EndPastEntries(codes[1..], counts, rest);
        EndPastInert(",", more + rest);
        EndPastEntry(codes[0], counts[codes[0]], "," + (more + rest));
        assert Join(entries, ',') + rest == entries[0] + ("," + (more + rest));
      }
    }
  }

  // ---------- One written entry ----------

  lemma {:induction false} EscapeHolds(s: string, x: char)
    requires x !in s && x in {',', ':'}
    ensures x !in Escape(s)
  {
    if s != "" {
      EscapeHolds(s[1..], x);
      assert x !in EscapeChar(s[0]);
    }
  }

  lemma TrimBoth(before: string, s: string, after: string, p: char -> bool)
    requires (forall i | 0 <= i < |before| :: p(before[i])) && (forall i | 0 <= i < |after| :: p(after[i]))
    requires s != "" && !p(s[0]) && !p(s[|s| - 1])
    ensures Trim(before + s + after, p) == s
  {
    TrimStartAll(before, s + after, p);
    assert before + s + after == before + (s + after);
    TrimEndAll(s, after, p);
  }

  lemma {:induction false} TrimStartAll(before: string, s: string, p: char -> bool)
    requires (forall i | 0 <= i < |before| :: p(before[i])) && (s == "" || !p(s[0]))
    ensures TrimStart(before + s, p) == s
  {
    if before == "" {
      assert before + s == s;
    } else {
      assert (before + s)[1..] == before[1..] + s;
      TrimStartAll(before[1..], s, p);
    }
  }

  lemma {:induction false} TrimEndAll(s: string, after: string, p: char -> bool)
    requires (forall i | 0 <= i < |after| :: p(after[i])) && (s == "" || !p(s[|s| - 1]))
    ensures TrimEnd(s + after, p) == s
    decreases |after|
  {
    if after == "" {
      assert s + after == s;
    } else {
      var n := |after| - 1;
      assert (s + after)[..|s| + n] == s + after[..n];
      TrimEndAll(s, after[..n], p);
    }
  }

  lemma CountReads(count: usize, after: string)
    requires forall i | 0 <= i < |after| :: IsWhiteSpace(after[i])
    ensures ParseUsize(Trim(" " + Print(count) + after, IsWhiteSpace)) == Some(count)
  {
    PrintRoundTrip(count);
    hide Print, Decimal;
    var number := Print(count);
    assert !IsWhiteSpace(number[0]) && !IsWhiteSpace(number[|number| - 1]) && number[0] != '+';
    TrimBoth(" ", number, after, IsWhiteSpace);
  }

  lemma EntryReads(code: string, count: usize, after: string)
    requires ':' !in code && forall i | 0 <= i < |after| :: IsWhiteSpace(after[i])
    ensures ParseEntry(Entry(code, count) + after) == Some((Recovered(code), count))
  {
    hide Escape, Print, IsWhiteSpace, ParseUsize;
    EscapeHolds(code, ':');
    CountReads(count, after);
    var quoted := "\"" + Escape(code) + "\"";
    var key, value := "\n  " + quoted, " " + Print(count) + after;
    assert ':' !in key;
    IndexAfter(key, value, ':');
    var entry := Entry(code, count) + after;
    assert entry == key + [':'] + value;
    assert entry[..|key|] == key && entry[|key| + 1..] == value;
    KeyTrims(quoted);
  }

  lemma KeyTrims(quoted: string)
    requires quoted != "" && quoted[0] == '"' && quoted[|quoted| - 1] == '"'
    ensures Trim("\n  " + quoted, IsWhiteSpace) == quoted
  {
    var none: string := "";
    TrimBoth("\n  ", quoted, none, IsWhiteSpace);
    assert "\n  " + quoted + none == "\n  " + quoted;
  }

  // ---------- The written object ----------

  lemma {:induction false} FindFirst(before: string, needle: string, rest: string)
    requires needle != "" && needle[0] !in before
    ensures Find(before + needle + rest, needle) == Some(|before|)
  {
    var s := before + needle + rest;
    if before == "" {
      assert s[..|needle|] == needle;
    } else {
      assert s[0] == before[0] && s[..|needle|][0] == s[0];
      assert s[1..] == before[1..] + needle + rest;
      FindFirst(before[1..], needle, rest);
    }
  }

  // Reading finds exactly the text between the braces that writing put there.
  lemma ObjectFound(before: string, key: string, counts: Counts, tail: string)
    requires '"' !in before && '{' !in key
    ensures ParseCountObject(before + CountObjectText(key, counts, true) + tail, key) ==
      Some(Collect(Split(Join(Entries(InOrder(counts.Keys), counts), ',') + "\n ", ',')))
  {
    OrderedKeys(counts);
    hide Entries, Collect, Split, Join, EndOf, Index, Find;
    var joined := Join(Entries(InOrder(counts.Keys), counts), ',');
    var needle := "\"" + key + "\"";
    var rest := "}" + ",\n" + tail;
    var braced := "{" + (joined + ("\n " + rest));
    var content := before + CountObjectText(key, counts, true) + tail;
    var lead := before + " ";
    assert content == lead + needle + (": " + braced);
    FindFirst(lead, needle, ": " + braced);
    var from := content[|lead|..];
    assert from == (needle + ": ") + ['{'] + braced[1..];
    IndexAfter(needle + ": ", braced[1..], '{');
    assert from[|needle + ": "|..] == braced;
    ObjectEnds(counts, joined, rest, braced);
    FindWithin(content, needle);
  }

  lemma ClosingEnds(rest: string)
    requires rest != "" && rest[0] == '}'
    ensures EndOf("\n " + rest, BODY) == Some(2)
  {
    assert EndOf(rest, BODY) == Some(0);
    hide EndOf;
    EndPastInert("\n ", rest);
  }

  lemma OpeningBegins(inner: string)
    ensures EndOf(['{'] + inner, START) == var r := EndOf(inner, BODY); if r.Some? then Some(1 + r.value) else None
  {
    hide EndOf;
    assert Read(START, '{') == BODY;
    EndPastOne('{', inner, START);
  }

  lemma ObjectEnds(counts: Counts, joined: string, rest: string, braced: string)
    requires (forall i | 0 <= i < |InOrder(counts.Keys)| :: InOrder(counts.Keys)[i] in counts)
    requires joined == Join(Entries(InOrder(counts.Keys), counts), ',')
    requires rest != "" && rest[0] == '}' && braced == "{" + (joined + ("\n " + rest))
    ensures EndOf(braced, START) == Some(1 + |joined| + 2)
    ensures |braced| >= 1 + |joined| + 2 && braced[1..1 + |joined| + 2] == joined + "\n "
  {
    hide Join, Entries, EndOf, InOrder;
    ClosingEnds(rest);
    EndPastEntries(InOrder(counts.Keys), counts, "\n " + rest);
    OpeningBegins(joined + ("\n " + rest));
    BracedSlice(joined, rest, braced);
  }

  lemma BracedSlice(joined: string, rest: string, braced: string)
    requires braced == "{" + (joined + ("\n " + rest))
    ensures braced == ['{'] + (joined + ("\n " + rest))
    ensures |braced| >= 1 + |joined| + 2 && braced[1..1 + |joined| + 2] == joined + "\n "
  {
    assert braced == "{" + joined + "\n " + rest;
  }

  // ---------- The pieces between commas ----------

  function Pieces(codes: seq<string>, counts: Counts): seq<string>
    requires forall i | 0 <= i < |codes| :: codes[i] in counts
  {
    seq(|codes|, i requires 0 <= i < |codes| =>
      Entry(codes[i], counts[codes[i]]) + if i == |codes| - 1 then "\n " else "")
  }

  lemma {:induction false} JoinLast(parts: seq<string>, more: string)
    requires parts != []
    ensures Join(parts[|parts| - 1 := parts[|parts| - 1] + more], ',') == Join(parts, ',') + more
    decreases |parts|
  {
    if |parts| > 1 {
      JoinLast(parts[1..], more);
      var n := |parts| - 1;
      assert parts[n := parts[n] + more][1..] == parts[1..][n - 1 := parts[1..][n - 1] + more];
    }
  }

  lemma EntryHasNoComma(code: string, count: nat)
    requires ',' !in code
    ensures ',' !in Entry(code, count)
  {
    EscapeHolds(code, ',');
    PrintRoundTrip(count);
    hide Escape, Print, Decimal;
  }

  lemma BodySplits(codes: seq<string>, counts: Counts)
    requires codes != [] && forall i | 0 <= i < |codes| :: codes[i] in counts && ',' !in codes[i]
    ensures Split(Join(Entries(codes, counts), ',') + "\n ", ',') == Pieces(codes, counts)
  {
    hide Entry, Split, Join;
    var entries, pieces := Entries(codes, counts), Pieces(codes, counts);
    JoinLast(entries, "\n ");
    var n := |codes| - 1;
    assert pieces == entries[n := entries[n] + "\n "] by {
      forall i | 0 <= i < |codes| ensures pieces[i] == entries[n := entries[n] + "\n "][i] {
        assert entries[i] + "" == entries[i];
      }
    }
    forall p | p in pieces ensures ',' !in p {
      var i :| 0 <= i < |pieces| && pieces[i] == p;
      EntryHasNoComma(codes[i], counts[codes[i]]);
    }
    SplitJoin(pieces, ',');
  }

  lemma PieceReads(codes: seq<string>, counts: Counts, i: nat)
    requires (forall k | 0 <= k < |codes| :: codes[k] in counts) && i < |codes| && ':' !in codes[i]
    ensures ParseEntry(Pieces(codes, counts)[i]) == Some((Recovered(codes[i]), counts[codes[i]]))
  {
    hide Entry, ParseEntry, Recovered;
    EntryReads(codes[i], counts[codes[i]], if i == |codes| - 1 then "\n " else "");
  }

  lemma {:induction false} PlainEscapes(code: string)
    requires Plain(code)
    ensures Escape(code) == code
  {
    if code != "" {
      PlainEscapes(code[1..]);
      assert code == [code[0]] + code[1..];
    }
  }

  lemma PlainRecovered(code: string)
    requires Plain(code)
    ensures Recovered(code) == code
  {
    PlainEscapes(code);
    var quote := "\"";
    if code == "" {
      assert quote + "" + quote == ['"', '"'];
      TrimStartAll(['"', '"'], "", IsQuote);
      assert ['"', '"'] + "" == ['"', '"'];
    } else {
      TrimBoth(quote, code, quote, IsQuote);
    }
  }

  lemma {:induction false} PlainCollect(codes: seq<string>, counts: Counts, i: nat)
    requires forall k | 0 <= k < |codes| :: codes[k] in counts && Plain(codes[k])
    requires i <= |codes|
    ensures Collect(Pieces(codes, counts)[..i]) == map c | c in codes[..i] :: counts[c]
    decreases i
  {
    hide Entry, ParseEntry, Recovered;
    var pieces := Pieces(codes, counts);
    if i > 0 {
      PlainCollect(codes, counts, i - 1);
      assert pieces[..i][..i - 1] == pieces[..i - 1];
      PlainHasNoSeparator(codes[i - 1]);
      hide Plain;
      PieceReads(codes, counts, i - 1);
      PlainRecovered(codes[i - 1]);
      hide Pieces, Collect;
      assert codes[..i] == codes[..i - 1] + [codes[i - 1]];
      CollectOne(pieces, i);
    }
  }

  lemma CollectOne(pieces: seq<string>, i: nat)
    requires 0 < i <= |pieces| && ParseEntry(pieces[i - 1]).Some?
    ensures Collect(pieces[..i]) ==
      Collect(pieces[..i - 1])[ParseEntry(pieces[i - 1]).value.0 := ParseEntry(pieces[i - 1]).value.1]
  {
    hide ParseEntry;
    assert pieces[..i][..i - 1] == pieces[..i - 1];
  }

  lemma PlainHasNoSeparator(code: string)
    requires Plain(code)
    ensures ',' !in code && ':' !in code
  {
  }

  lemma NoEntries()
    ensures Collect(Split("" + "\n ", ',')) == map[]
  {
    var s := "" + "\n ";
    SplitSingle(s, ',');
    IndexNone(s, ':');
    hide Split, Index;
    var one := [s];
    assert one[..0] == [];
    assert Collect(one[..0]) == map[];
  }

  lemma PlainBudgetReads(counts: Counts, stats: Stats, version: string)
    requires forall code | code in counts :: Plain(code)
    ensures ParseCountObject(BudgetText(counts, stats, version), "budget") == Some(counts)
  {
    var codes := InOrder(counts.Keys);
    OrderedKeys(counts);
    hide Plain, Entries, Pieces, Collect, Split, Join, CountObjectText, TailText, ParseCountObject;
    BudgetShape(counts, stats, version);
    if codes == [] {
      assert Join(Entries(codes, counts), ',') == "" by { NothingJoined(codes, counts); }
      NoEntries();
      assert forall c :: c in counts ==> c in codes;
      assert counts == map[];
    } else {
      forall i | 0 <= i < |codes| ensures ',' !in codes[i] { PlainHasNoSeparator(codes[i]); }
      BodySplits(codes, counts);
      PlainCollect(codes, counts, |codes|);
      assert Pieces(codes, counts)[..|codes|] == Pieces(codes, counts) by { PiecesLength(codes, counts); }
      assert codes[..|codes|] == codes;
      assert (map c | c in codes :: counts[c]) == counts;
    }
  }

  lemma NothingJoined(codes: seq<string>, counts: Counts)
    requires codes == []
    ensures Join(Entries(codes, counts), ',') == ""
  {
  }

  lemma PiecesLength(codes: seq<string>, counts: Counts)
    requires forall i | 0 <= i < |codes| :: codes[i] in counts
    ensures |Pieces(codes, counts)| == |codes|
  {
  }

  lemma BudgetShape(counts: Counts, stats: Stats, version: string)
    ensures forall i | 0 <= i < |InOrder(counts.Keys)| :: InOrder(counts.Keys)[i] in counts
    ensures ParseCountObject(BudgetText(counts, stats, version), "budget") ==
      Some(Collect(Split(Join(Entries(InOrder(counts.Keys), counts), ',') + "\n ", ',')))
  {
    OrderedKeys(counts);
    hide Entries, Collect, Split, Join, CountObjectText, TailText, ParseCountObject;
    ObjectFound("{\n", "budget", counts, TailText(stats, version));
  }

  // ---------- Exactly which budgets read back ----------

  lemma {:induction false} TrimStartWithin(s: string, p: char -> bool)
    ensures forall x | x in TrimStart(s, p) :: x in s
  {
    if s != "" && p(s[0]) { TrimStartWithin(s[1..], p); }
  }

  lemma {:induction false} TrimEndWithin(s: string, p: char -> bool)
    ensures forall x | x in TrimEnd(s, p) :: x in s
    decreases |s|
  {
    if s != "" && p(s[|s| - 1]) { TrimEndWithin(s[..|s| - 1], p); }
  }

  lemma ReadCodeHasNoSeparator(entry: string)
    requires ParseEntry(entry).Some? && ',' !in entry
    ensures ',' !in ParseEntry(entry).value.0 && ':' !in ParseEntry(entry).value.0
  {
    hide ParseUsize, IsWhiteSpace, IsQuote;
    var key := entry[..Index(entry, ':')];
    var inner := Trim(key, IsWhiteSpace);
    TrimStartWithin(key, IsWhiteSpace);
    TrimEndWithin(TrimStart(key, IsWhiteSpace), IsWhiteSpace);
    TrimStartWithin(inner, IsQuote);
    TrimEndWithin(TrimStart(inner, IsQuote), IsQuote);
  }

  lemma {:induction false} CollectedHaveNoSeparator(entries: seq<string>, code: string)
    requires (forall e | e in entries :: ',' !in e) && code in Collect(entries)
    ensures ',' !in code && ':' !in code
    decreases |entries|
  {
    hide ParseEntry;
    var n := |entries| - 1;
    if ParseEntry(entries[n]).Some? { ReadCodeHasNoSeparator(entries[n]); }
    if code in Collect(entries[..n]) { CollectedHaveNoSeparator(entries[..n], code); }
  }

  lemma {:induction false} CollectedRecovered(codes: seq<string>, counts: Counts, i: nat, k: nat)
    requires forall j | 0 <= j < |codes| :: codes[j] in counts && ':' !in codes[j]
    requires k < i <= |codes|
    ensures Recovered(codes[k]) in Collect(Pieces(codes, counts)[..i])
    decreases i
  {
    hide Entry, ParseEntry, Recovered, Collect;
    var pieces := Pieces(codes, counts);
    PieceReads(codes, counts, i - 1);
    CollectOne(pieces, i);
    if k < i - 1 { CollectedRecovered(codes, counts, i - 1, k); }
  }

  function Escaped(code: string): nat {
    if code == "" then 0 else (if |EscapeChar(code[0])| > 1 then 1 else 0) + Escaped(code[1..])
  }

  lemma {:induction false} EscapeLength(code: string)
    ensures |Escape(code)| >= |code| + Escaped(code)
    ensures Escaped(code) > 0 ==> '\\' in Escape(code)
    ensures '\\' in code ==> Escaped(code) > 0
    ensures Escaped(code) == 0 && ',' !in code && ':' !in code ==> Plain(code)
    ensures code != "" ==> |Escape(code)| > 0 && Escape(code)[0] != '"'
  {
    if code != "" { EscapeLength(code[1..]); }
  }

  lemma {:induction false} EscapeEnd(code: string)
    requires code != ""
    ensures |Escape(code)| > 0
    ensures code[|code| - 1] != '"' ==> Escape(code)[|Escape(code)| - 1] != '"'
    ensures code[|code| - 1] == '"' ==>
      |Escape(code)| >= 2 && Escape(code)[|Escape(code)| - 1] == '"' && Escape(code)[|Escape(code)| - 2] == '\\'
    ensures code[|code| - 1] == '"' && '\\' in code ==> Escaped(code) >= 2
  {
    if |code| > 1 {
      EscapeEnd(code[1..]);
      EscapeLength(code[1..]);
      assert Escape(code) == EscapeChar(code[0]) + Escape(code[1..]);
      LastQuoteCounts(code[1..]);
    }
  }

  lemma {:induction false} LastQuoteCounts(code: string)
    requires code != ""
    ensures code[|code| - 1] == '"' ==> Escaped(code) >= 1
  {
    if |code| > 1 { LastQuoteCounts(code[1..]); }
  }

  lemma QuoteTwice(inner: string)
    ensures "\"" + (inner + ['"']) + "\"" == "\"" + inner + ['"', '"']
  {
  }

  lemma RecoveredIs(code: string)
    requires code != ""
    ensures Recovered(code) == if code[|code| - 1] == '"' then Escape(code)[..|Escape(code)| - 1] else Escape(code)
  {
    EscapeLength(code);
    EscapeEnd(code);
    hide Escape, Escaped, Trim;
    var e := Escape(code);
    if code[|code| - 1] == '"' {
      var inner := e[..|e| - 1];
      assert e == inner + ['"'];
      QuoteTwice(inner);
      assert inner[|inner| - 1] == e[|e| - 2] && inner[0] == e[0];
      TrimBoth("\"", inner, ['"', '"'], IsQuote);
    } else {
      TrimBoth("\"", e, "\"", IsQuote);
    }
  }

  // Reading back a code that needed escaping yields a backslash, and a longer code each time from then on.
  lemma RecoveredGrows(code: string)
    requires Escaped(code) > 0
    ensures '\\' in Recovered(code)
    ensures '\\' in code ==> |Recovered(code)| > |code|
  {
    RecoveredIs(code);
    EscapeLength(code);
    EscapeEnd(code);
    hide Escape, Escaped, Recovered;
    var e := Escape(code);
    if code[|code| - 1] == '"' {
      var i :| 0 <= i < |e| && e[i] == '\\';
      assert e[..|e| - 1][i] == '\\';
    }
  }

  function TotalLength(codes: seq<string>): nat {
    if codes == [] then 0 else |codes[0]| + TotalLength(codes[1..])
  }

  lemma {:induction false} WithinTotal(codes: seq<string>, code: string)
    requires code in codes
    ensures |code| <= TotalLength(codes)
  {
    if code != codes[0] { WithinTotal(codes[1..], code); }
  }

  // No finite set of codes holds, with a code that needed escaping, all that is read back from its members.
  lemma {:induction false} NoEscapedCode(codes: seq<string>, code: string)
    requires forall c | c in codes :: Recovered(c) in codes
    requires code in codes && '\\' in code
    ensures false
    decreases TotalLength(codes) - |code|
  {
    EscapeLength(code);
    RecoveredGrows(code);
    hide Recovered;
    WithinTotal(codes, code);
    WithinTotal(codes, Recovered(code));
    NoEscapedCode(codes, Recovered(code));
  }

  lemma ReadBackIsPlain(counts: Counts, stats: Stats, version: string)
    requires ParseCountObject(BudgetText(counts, stats, version), "budget") == Some(counts)
    ensures forall code | code in counts :: Plain(code)
  {
    var codes := InOrder(counts.Keys);
    BudgetShape(counts, stats, version);
    hide Plain, Entries, Pieces, Collect, Split, Join, CountObjectText, TailText, ParseCountObject, Recovered, Escaped;
    assert forall c :: c in codes <==> c in counts;
    var body := Join(Entries(codes, counts), ',') + "\n ";
    JoinSplit(body, ',');
    forall i | 0 <= i < |codes| ensures ',' !in codes[i] && ':' !in codes[i] {
      CollectedHaveNoSeparator(Split(body, ','), codes[i]);
    }
    if codes != [] {
      BodySplits(codes, counts);
      PiecesLength(codes, counts);
      assert Pieces(codes, counts)[..|codes|] == Pieces(codes, counts);
      forall c | c in codes ensures Recovered(c) in codes {
        var k :| 0 <= k < |codes| && codes[k] == c;
        CollectedRecovered(codes, counts, |codes|, k);
      }
      forall code | code in counts ensures Plain(code) {
        EscapeLength(code);
        AllUnescaped(codes, code);
      }
    }
  }

  lemma AllUnescaped(codes: seq<string>, code: string)
    requires (forall c | c in codes :: Recovered(c) in codes) && code in codes
    ensures Escaped(code) == 0
  {
    hide Recovered, Escaped;
    if Escaped(code) > 0 {
      RecoveredGrows(code);
      NoEscapedCode(codes, Recovered(code));
    }
  }

  /** A budget reads back as the counts it was written from exactly when each code is written as it is
      and holds neither comma nor colon; all alphanumeric codes do. */
  lemma BudgetRoundTripIff(counts: Counts, stats: Stats, version: string)
    ensures ParseCountObject(BudgetText(counts, stats, version), "budget") == Some(counts) <==>
      forall code | code in counts :: Plain(code)
  {
    hide Plain, ParseCountObject, BudgetText;
    if forall code | code in counts :: Plain(code) { PlainBudgetReads(counts, stats, version); }
    if ParseCountObject(BudgetText(counts, stats, version), "budget") == Some(counts) {
      ReadBackIsPlain(counts, stats, version);
    }
  }

  /** One code that does not come back: a comma splits its entry in two. */
  lemma CommaDoesNotRoundTrip(count: usize, stats: Stats, version: string)
    ensures ParseCountObject(BudgetText(map["a,b" := count], stats, version), "budget") != Some(map["a,b" := count])
  {
    var counts: Counts := map["a,b" := count];
    BudgetRoundTripIff(counts, stats, version);
    hide ParseCountObject, BudgetText;
    var code := "a,b";
    assert code in counts && code[1] == ',';
    assert !Plain(code);
  }

  predicate Alphanumeric(code: string) {
    forall i | 0 <= i < |code| :: IsDigit(code[i]) || 'a' <= code[i] <= 'z' || 'A' <= code[i] <= 'Z'
  }

  /** Alphanumeric codes always survive. */
  lemma AlphanumericRoundTrip(counts: Counts, stats: Stats, version: string)
    requires forall code | code in counts :: Alphanumeric(code)
    ensures ParseCountObject(BudgetText(counts, stats, version), "budget") == Some(counts)
  {
    forall code | code in counts ensures Plain(code) {
      assert Alphanumeric(code);
    }
    PlainBudgetReads(counts, stats, version);
  }
}
