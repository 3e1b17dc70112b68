/**
 Extraction of the query id from a `kill_query` procedure call. The two regular
 expressions of the source are written as matchers on the rest of the text; `CallShape`
 and `IdShape` say which texts each expression matches.
 */
module KillQuery {
  import opened Store

  predicate IsWord(c: char) {
    'a' <= c <= 'z' || 'A' <= c <= 'Z' || '0' <= c <= '9' || c == '_' || c == '-'
  }

  predicate AllSpaces(s: string) {
    forall i | 0 <= i < |s| :: s[i] == ' '
  }

  /** The characters of a query id: letters, digits, underscores and hyphens. */
  predicate AllWord(s: string) {
    forall i | 0 <= i < |s| ::
      'A' <= s[i] <= 'Z' || 'a' <= s[i] <= 'z' || '0' <= s[i] <= '9' || s[i] == '_' || s[i] == '-'
  }

  function DropSpaces(t: string): string {
    if t != "" && t[0] == ' ' then DropSpaces(t[1..]) else t
  }

  function TakeWord(t: string): (word: string)
    ensures |word| <= |t|
  {
    if t != "" && IsWord(t[0]) then [t[0]] + TakeWord(t[1..]) else ""
  }

  /** The rest of the text after a literal. */
  function Expect(t: string, literal: string): Option<string> {
    if literal <= t then Some(t[|literal|..]) else None
  }

  function Quote(name: string): string {
    "\"" + name + "\""
  }

  /** The rest after a name or the name in double quotes. */
  function ExpectName(t: string, name: string): Option<string> {
    var bare := Expect(t, name);
    if bare.Some? then bare else Expect(t, Quote(name))
  }

  /** The rest after any character but a newline. */
  function ExpectAny(t: string): Option<string> {
    if t != "" && t[0] != '\n' then Some(t[1..]) else None
  }

  /** A possibly empty id between single quotes. */
  function QuotedId(t: string): Option<string> {
    if t != "" && t[0] == '\'' then
      var id := TakeWord(t[1..]);
      if "'" <= t[1 + |id|..] then Some(id) else None
    else
      None
  }

  /** The qualified name of the procedure, after the spaces. */
  predicate NameAtStart(t: string) {
    var system := ExpectName(t, "system");
    system.Some? &&
    var dot1 := ExpectAny(system.value);
    dot1.Some? &&
    var runtime := ExpectName(dot1.value, "runtime");
    runtime.Some? &&
    var dot2 := ExpectAny(runtime.value);
    dot2.Some? &&
    ExpectName(dot2.value, "kill_query").Some?
  }

  /** The first expression, which detects a call of the procedure, at the start of the text. */
  predicate CallAtStart(t: string) {
    var head := if "call" <= t then Expect(t, "call") else Expect(t, "CALL");
    head.Some? && head.value != "" && head.value[0] == ' ' && NameAtStart(DropSpaces(head.value))
  }

  /** The second expression, which captures the id, at the start of the text. */
  function IdAtStart(t: string): Option<string> {
    var name := ExpectName(t, "kill_query");
    if name.Some? then
      var open := Expect(DropSpaces(name.value), "(");
      if open.Some? then QuotedId(DropSpaces(open.value)) else None
    else
      var key := Expect(t, "query_id");
      if key.None? then None else
      var arrow := Expect(DropSpaces(key.value), "=>");
      if arrow.Some? then QuotedId(DropSpaces(arrow.value)) else None
  }

  predicate IsKillQuery(body: string) {
    exists i | 0 <= i <= |body| :: CallAtStart(body[i..])
  }

  /** The id captured by the leftmost match of the second expression. */
  function FirstId(body: string): Option<string> {
    var here := IdAtStart(body);
    if here.Some? || body == "" then here else FirstId(body[1..])
  }

  function ExtractQueryId(body: string): string {
    if IsKillQuery(body) then
      var found := FirstId(body);
      if found.Some? then found.value else ""
    else
      ""
  }

  // ----- What the matchers accept -----

  ghost predicate IsName(s: string, name: string) {
    s == name || s == Quote(name)
  }

  /** A procedure call up to and including the procedure's name, then anything. */
  ghost predicate CallShape(t: string) {
    exists head, spaces, system, dot1, runtime, dot2, name, rest ::
      IsCall(t, head, spaces, system, dot1, runtime, dot2, name, rest)
  }

  ghost predicate IsCall(
    t: string, head: string, spaces: string, system: string, dot1: char,
    runtime: string, dot2: char, name: string, rest: string)
  {
    && (head == "call" || head == "CALL")
    && spaces != "" && AllSpaces(spaces)
    && IsName(system, "system") && dot1 != '\n'
    && IsName(runtime, "runtime") && dot2 != '\n'
    && IsName(name, "kill_query")
    && t == head + (spaces + (system + ([dot1] + (runtime + ([dot2] + (name + rest))))))
  }

  lemma {:induction false} DropSpacesOf(spaces: string, rest: string)
    requires AllSpaces(spaces)
    requires rest == "" || rest[0] != ' '
    ensures DropSpaces(spaces + rest) == rest
  {
    if spaces != "" {
      assert (spaces + rest)[1..] == spaces[1..] + rest;
      DropSpacesOf(spaces[1..], rest);
    } else {
      assert spaces + rest == rest;
    }
  }

  lemma {:induction false} SpacesDropped(t: string) returns (spaces: string)
    ensures AllSpaces(spaces) && t == spaces + DropSpaces(t)
    ensures spaces != "" <==> t != "" && t[0] == ' '
  {
    if t != "" && t[0] == ' ' {
      var rest := SpacesDropped(t[1..]);
      spaces := [t[0]] + rest;
      assert t == [t[0]] + t[1..];
      assert spaces + DropSpaces(t) == [t[0]] + (rest + DropSpaces(t[1..]));
    } else {
      spaces := "";
    }
  }

  lemma {:induction false} TakeWordOf(id: string, rest: string)
    requires AllWord(id)
    requires rest == "" || !IsWord(rest[0])
    ensures TakeWord(id + rest) == id
  {
    if id != "" {
      assert (id + rest)[1..] == id[1..] + rest;
      TakeWordOf(id[1..], rest);
    } else {
      assert id + rest == rest;
    }
  }

  lemma {:induction false} WordTaken(t: string)
    ensures AllWord(TakeWord(t)) && TakeWord(t) <= t
  {
    if t != "" && IsWord(t[0]) {
      WordTaken(t[1..]);
    }
  }

  lemma {:induction false} ExpectOf(literal: string, rest: string)
    ensures Expect(literal + rest, literal) == Some(rest)
  {
  }

  lemma {:induction false} ExpectNameOf(s: string, name: string, rest: string)
    requires IsName(s, name) && name != "" && name[0] != '"'
    ensures ExpectName(s + rest, name) == Some(rest)
  {
  }

  lemma {:induction false} NameExpected(t: string, name: string) returns (s: string)
    requires ExpectName(t, name).Some?
    ensures IsName(s, name) && t == s + ExpectName(t, name).value
  {
    s := if Expect(t, name).Some? then name else Quote(name);
    assert t == t[..|s|] + t[|s|..];
  }

  lemma {:induction false} QuotedIdOf(id: string, rest: string)
    requires AllWord(id)
    ensures QuotedId("'" + (id + ("'" + rest))) == Some(id)
  {
    var t := "'" + (id + ("'" + rest));
    assert t[1..] == id + ("'" + rest);
    TakeWordOf(id, "'" + rest);
    assert t[1 + |id|..] == "'" + rest;
  }

  lemma {:induction false} IdQuoted(t: string) returns (rest: string)
    requires QuotedId(t).Some?
    ensures AllWord(QuotedId(t).value) && t == "'" + (QuotedId(t).value + ("'" + rest))
  {
    var id := QuotedId(t).value;
    WordTaken(t[1..]);
    rest := t[2 + |id|..];
    assert t == "'" + t[1..];
    assert t[1..] == id + t[1 + |id|..];
    assert t[1 + |id|..] == "'" + rest;
  }

  lemma {:induction false} AnyExpected(t: string) returns (c: char)
    requires ExpectAny(t).Some?
    ensures c != '\n' && t == [c] + ExpectAny(t).value
  {
    c := t[0];
  }

  lemma {:induction false} NameIsShaped(t: string)
    returns (system: string, dot1: char, runtime: string, dot2: char, name: string, rest: string)
    requires NameAtStart(t)
    ensures IsName(system, "system") && IsName(runtime, "runtime") && IsName(name, "kill_query")
    ensures dot1 != '\n' && dot2 != '\n'
    ensures t == system + ([dot1] + (runtime + ([dot2] + (name + rest))))
  {
    system := NameExpected(t, "system");
    var t1 := ExpectName(t, "system").value;
    dot1 := AnyExpected(t1);
    var t2 := ExpectAny(t1).value;
    runtime := NameExpected(t2, "runtime");
    var t3 := ExpectName(t2, "runtime").value;
    dot2 := AnyExpected(t3);
    var t4 := ExpectAny(t3).value;
    name := NameExpected(t4, "kill_query");
    rest := ExpectName(t4, "kill_query").value;
  }

  lemma {:induction false} CallIsShaped(t: string)
    requires CallAtStart(t)
    ensures CallShape(t)
  {
    var head := if "call" <= t then "call" else "CALL";
    var t1 := Expect(t, head).value;
    assert t == head + t1;
    var spaces := SpacesDropped(t1);
    var system, dot1, runtime, dot2, name, rest := NameIsShaped(DropSpaces(t1));
    assert IsCall(t, head, spaces, system, dot1, runtime, dot2, name, rest);
  }

  lemma {:induction false} CallAccepted(
    t: string, head: string, spaces: string, system: string, dot1: char,
    runtime: string, dot2: char, name: string, rest: string)
    requires IsCall(t, head, spaces, system, dot1, runtime, dot2, name, rest)
    ensures CallAtStart(t)
  {
    var t4 := [dot2] + (name + rest);
    var t3 := [dot1] + (runtime + t4);
    var t2 := system + t3;
    ExpectOf(head, spaces + t2);
    assert "call" <= t <==> head == "call" by {
      assert t[0] == head[0];
    }
    DropSpacesOf(spaces, t2);
    ExpectNameOf(system, "system", t3);
    assert t3[1..] == runtime + t4;
    ExpectNameOf(runtime, "runtime", t4);
    assert t4[1..] == name + rest;
    ExpectNameOf(name, "kill_query", rest);
  }

  /** The first matcher accepts exactly the texts that begin with a call. */
  lemma {:induction false} CallMatcherIsExact(t: string)
    ensures CallAtStart(t) <==> CallShape(t)
  {
    if CallAtStart(t) {
      CallIsShaped(t);
    }
    if head, spaces, system, dot1, runtime, dot2, name, rest :|
      IsCall(t, head, spaces, system, dot1, runtime, dot2, name, rest) {
      CallAccepted(t, head, spaces, system, dot1, runtime, dot2, name, rest);
    }
  }

  /** The procedure's name, an opening parenthesis and a quoted id; or `query_id =>` and a quoted id. */
  ghost predicate IdShape(t: string, id: string) {
    exists lead, spaces1, middle, spaces2, rest :: IsIdText(t, lead, spaces1, middle, spaces2, id, rest)
  }

  ghost predicate IsIdText(
    t: string, lead: string, spaces1: string, middle: string, spaces2: string, id: string, rest: string)
  {
    && ((IsName(lead, "kill_query") && middle == "(") || (lead == "query_id" && middle == "=>"))
    && AllSpaces(spaces1) && AllSpaces(spaces2) && AllWord(id)
    && t == lead + (spaces1 + (middle + (spaces2 + ("'" + (id + ("'" + rest))))))
  }

  /** The second matcher accepts exactly these texts and captures their id. */
  lemma {:induction false} IdMatcherIsExact(t: string, id: string)
    ensures IdAtStart(t) == Some(id) <==> IdShape(t, id)
  {
    if IdAtStart(t) == Some(id) {
      var byName := ExpectName(t, "kill_query").Some?;
      var middle := if byName then "(" else "=>";
      var lead: string;
      if byName {
        lead := NameExpected(t, "kill_query");
      } else {
        lead := "query_id";
      }
      var t1 := t[|lead|..];
      assert t == lead + t1;
      assert byName ==> t1 == ExpectName(t, "kill_query").value;
      var spaces1 := SpacesDropped(t1);
      var t2 := Expect(DropSpaces(t1), middle).value;
      assert DropSpaces(t1) == middle + t2;
      var spaces2 := SpacesDropped(t2);
      var rest := IdQuoted(DropSpaces(t2));
      assert IsIdText(t, lead, spaces1, middle, spaces2, id, rest);
    }
    if lead, spaces1, middle, spaces2, rest :| IsIdText(t, lead, spaces1, middle, spaces2, id, rest) {
      IdAccepted(t, lead, spaces1, middle, spaces2, id, rest);
    }
  }

  lemma {:induction false} IdAccepted(
    t: string, lead: string, spaces1: string, middle: string, spaces2: string, id: string, rest: string)
    requires IsIdText(t, lead, spaces1, middle, spaces2, id, rest)
    ensures IdAtStart(t) == Some(id)
  {
    var t4 := "'" + (id + ("'" + rest));
    var t2 := middle + (spaces2 + t4);
    if lead == "query_id" {
      assert t[0] == 'q';
      ExpectOf(lead, spaces1 + t2);
    } else {
      ExpectNameOf(lead, "kill_query", spaces1 + t2);
    }
    DropSpacesOf(spaces1, t2);
    ExpectOf(middle, spaces2 + t4);
    DropSpacesOf(spaces2, t4);
    QuotedIdOf(id, rest);
  }

  /** The search finds the leftmost place where the second expression matches. */
  lemma {:induction false} FirstIdIsLeftmost(body: string, i: nat)
    requires i <= |body| && IdAtStart(body[i..]).Some?
    requires forall j | 0 <= j < i :: IdAtStart(body[j..]).None?
    ensures FirstId(body) == IdAtStart(body[i..])
    decreases i
  {
    assert body[0..] == body;
    if i > 0 {
      assert body[1..][i - 1..] == body[i..];
      forall j | 0 <= j < i - 1 ensures IdAtStart(body[1..][j..]).None? {
        assert body[1..][j..] == body[j + 1..];
      }
      FirstIdIsLeftmost(body[1..], i - 1);
    }
  }

  // ----- Round trip -----

  /** The first three characters of a text that the second expression could match. */
  predicate Opens(a: char, b: char, c: char) {
    (a == 'k' && b == 'i' && c == 'l') || (a == '"' && b == 'k' && c == 'i') || (a == 'q' && b == 'u' && c == 'e')
  }

  lemma {:induction false} NotOpenedNotMatched(t: string)
    requires |t| >= 3 ==> !Opens(t[0], t[1], t[2])
    ensures IdAtStart(t).None?
  {
  }

  /** A part in which the second expression matches nowhere can be skipped. */
  lemma {:induction false} Skip(part: string, t: string)
    requires forall i | 0 <= i < |part| :: IdAtStart((part + t)[i..]).None?
    ensures FirstId(part + t) == FirstId(t)
    decreases |part|
  {
    if part == "" {
      assert part + t == t;
    } else {
      assert (part + t)[1..] == part[1..] + t;
      assert (part + t)[0..] == part + t;
      forall i | 0 <= i < |part| - 1 ensures IdAtStart((part[1..] + t)[i..]).None? {
        assert (part[1..] + t)[i..] == (part + t)[i + 1..];
      }
      Skip(part[1..], t);
    }
  }

  lemma {:induction false} SkipUnopened(part: string, t: string)
    requires |t| >= 2
    requires var s := part + t; forall i | 0 <= i < |part| :: !Opens(s[i], s[i + 1], s[i + 2])
    ensures FirstId(part + t) == FirstId(t)
  {
    var s := part + t;
    forall i | 0 <= i < |part| ensures IdAtStart(s[i..]).None? {
      assert s[i..][0] == s[i] && s[i..][1] == s[i + 1] && s[i..][2] == s[i + 2];
      NotOpenedNotMatched(s[i..]);
    }
    Skip(part, t);
  }

  /** The procedure's name is skipped when what follows it is no quoted id in parentheses. */
  lemma {:induction false} SkipName(name: string, t: string)
    requires IsName(name, "kill_query")
    requires |t| >= 3 && (t[0] == ' ' || t[0] == '(')
    requires var open := Expect(DropSpaces(t), "("); open.Some? && QuotedId(DropSpaces(open.value)).None?
    ensures FirstId(name + t) == FirstId(t)
  {
    var s := name + t;
    forall i | 0 <= i < |name| ensures IdAtStart(s[i..]).None? {
      if i == 0 {
        ExpectNameOf(name, "kill_query", t);
        assert s[i..] == name + t;
      } else {
        InsideName(name, t, i);
      }
    }
    Skip(name, t);
  }

  lemma {:induction false} InsideName(name: string, t: string, i: nat)
    requires IsName(name, "kill_query") && 0 < i < |name|
    requires |t| >= 3 && (t[0] == ' ' || t[0] == '(')
    ensures IdAtStart((name + t)[i..]).None?
  {
    var s := name + t;
    var u := s[i..];
    assert u[0] == s[i] && u[1] == s[i + 1] && u[2] == s[i + 2];
    if s[i] == 'q' {
      assert u[5] == s[i + 5] != '_';
    } else if i == 1 && name == Quote("kill_query") {
      assert u[10] == s[11] == '"';
      assert DropSpaces(u[10..]) == u[10..];
    } else {
      NotOpenedNotMatched(u);
    }
  }

  /** A printed call of the procedure with the query id as its first argument. */
  datatype Call = Call(
    head: string,
    spaces: string,
    system: string,
    dot1: char,
    runtime: string,
    dot2: char,
    name: string,
    spaces1: string,
    spaces2: string,
    named: bool,
    spaces3: string,
    spaces4: string,
    id: string,
    rest: string)

  ghost predicate Printable(c: Call) {
    && (c.head == "call" || c.head == "CALL")
    && c.spaces != "" && AllSpaces(c.spaces)
    && IsName(c.system, "system") && c.dot1 != '\n'
    && IsName(c.runtime, "runtime") && c.dot2 != '\n'
    && IsName(c.name, "kill_query")
    && AllSpaces(c.spaces1) && AllSpaces(c.spaces2) && AllSpaces(c.spaces3) && AllSpaces(c.spaces4)
    && AllWord(c.id)
  }

  function QuotedText(c: Call): string {
    "'" + (c.id + ("'" + c.rest))
  }

  function NamedText(c: Call): string {
    "query_id" + (c.spaces3 + ("=>" + (c.spaces4 + QuotedText(c))))
  }

  /** From the procedure's name on. */
  function ArgumentText(c: Call): string {
    c.spaces1 + ("(" + (c.spaces2 + if c.named then NamedText(c) else QuotedText(c)))
  }

  function Printed(c: Call): string {
    c.head + (c.spaces + (c.system + ([c.dot1] + (c.runtime + ([c.dot2] + (c.name + ArgumentText(c)))))))
  }

  /** The schema names contain no match, unless what follows continues their closing quote. */
  lemma {:induction false} SkipSchemaName(part: string, name: string, t: string)
    requires name == "system" || name == "runtime"
    requires IsName(part, name)
    requires |t| >= 2 && !(t[0] == 'k' && t[1] == 'i')
    ensures FirstId(part + t) == FirstId(t)
  {
    SkipUnopened(part, t);
  }

  lemma {:induction false} SkipSeparator(c: char, t: string)
    requires |t| >= 2 && (t[0] == 'r' || (t[0] == '"' && t[1] == 'r'))
    ensures FirstId([c] + t) == FirstId(t)
  {
    SkipUnopened([c], t);
  }

  /** A separator in front of the procedure's name may be a quote, which then stays unmatched. */
  lemma {:induction false} SkipLastSeparator(c: char, name: string, t: string)
    requires IsName(name, "kill_query")
    requires |t| >= 3 && (t[0] == ' ' || t[0] == '(')
    ensures FirstId([c] + (name + t)) == FirstId(name + t)
  {
    var s := [c] + (name + t);
    assert s[0..] == s;
    if c == '"' && name == "kill_query" {
      assert s[11] == t[0];
    } else {
      assert s[1] == name[0] && s[2] == name[1];
      NotOpenedNotMatched(s);
    }
    Skip([c], name + t);
  }

  /** Nothing before the procedure's name can be taken for the id. */
  lemma {:induction false} SkipQualifier(c: Call)
    requires Printable(c)
    ensures FirstId(Printed(c)) == FirstId(c.name + ArgumentText(c))
  {
    var t5 := [c.dot2] + (c.name + ArgumentText(c));
    var t4 := c.runtime + t5;
    var t3 := [c.dot1] + t4;
    var t2 := c.system + t3;
    assert ArgumentText(c)[0] == ' ' || ArgumentText(c)[0] == '(';
    SkipUnopened(c.head, c.spaces + t2);
    SkipSpaces(c.spaces, t2);
    assert t4[0] == c.runtime[0] && t4[1] == c.runtime[1];
    SkipSchemaName(c.system, "system", t3);
    SkipSeparator(c.dot1, t4);
    assert t5[1] == c.name[0];
    SkipSchemaName(c.runtime, "runtime", t5);
    SkipLastSeparator(c.dot2, c.name, ArgumentText(c));
  }

  lemma {:induction false} SkipSpaces(spaces: string, t: string)
    requires AllSpaces(spaces) && |t| >= 2
    ensures FirstId(spaces + t) == FirstId(t)
  {
    SkipUnopened(spaces, t);
  }

  lemma {:induction false} FirstIdOfNamedCall(c: Call)
    requires Printable(c) && c.named
    ensures FirstId(c.name + ArgumentText(c)) == Some(c.id)
  {
    var named := NamedText(c);
    var args := c.spaces2 + named;
    assert named[0] == 'q' && |named| >= 8;
    DropSpacesOf(c.spaces1, "(" + args);
    ExpectOf("(", args);
    DropSpacesOf(c.spaces2, named);
    SkipName(c.name, ArgumentText(c));
    SkipSpaces(c.spaces1, "(" + args);
    SkipUnopened("(", args);
    SkipSpaces(c.spaces2, named);
    IdAccepted(named, "query_id", c.spaces3, "=>", c.spaces4, c.id, c.rest);
  }

  lemma {:induction false} FirstIdOfCall(c: Call)
    requires Printable(c)
    ensures FirstId(c.name + ArgumentText(c)) == Some(c.id)
  {
    var t := c.name + ArgumentText(c);
    if c.named {
      FirstIdOfNamedCall(c);
    } else {
      IdAccepted(t, c.name, c.spaces1, "(", c.spaces2, c.id, c.rest);
    }
  }

  /**
   Round trip: from a printed call, whatever its spacing, quoting and notation and whatever
   text follows, exactly the id is extracted; also behind text in which no id is matched.
   */
  lemma {:induction false} ExtractsPrintedId(before: string, c: Call)
    requires Printable(c)
    requires forall i | 0 <= i < |before| :: IdAtStart((before + Printed(c))[i..]).None?
    ensures ExtractQueryId(before + Printed(c)) == c.id
  {
    var body := before + Printed(c);
    assert body[|before|..] == Printed(c);
    assert IsCall(Printed(c), c.head, c.spaces, c.system, c.dot1, c.runtime, c.dot2, c.name, ArgumentText(c));
    CallMatcherIsExact(Printed(c));
    Skip(before, Printed(c));
    SkipQualifier(c);
    FirstIdOfCall(c);
  }

  /** Otherwise the first id matched before the call is taken: the condition is exact unless the two ids agree. */
  lemma {:induction false} EarlierIdWins(before: string, c: Call, i: nat)
    requires Printable(c) && i < |before|
    requires IdAtStart((before + Printed(c))[i..]).Some?
    requires forall j | 0 <= j < i :: IdAtStart((before + Printed(c))[j..]).None?
    ensures Some(ExtractQueryId(before + Printed(c))) == IdAtStart((before + Printed(c))[i..])
  {
    var body := before + Printed(c);
    assert body[|before|..] == Printed(c);
    assert IsCall(Printed(c), c.head, c.spaces, c.system, c.dot1, c.runtime, c.dot2, c.name, ArgumentText(c));
    CallMatcherIsExact(Printed(c));
    FirstIdIsLeftmost(body, i);
  }

  /** In this text, "query_id=>'a'call system.runtime.kill_query('b')", the call names b and a is extracted. */
  lemma {:induction false} EarlierIdExample()
    ensures var c := Call("call", " ", "system", '.', "runtime", '.', "kill_query", "", "", false, "", "", "b", ")");
            Printable(c) && ExtractQueryId("query_id=>'a'" + Printed(c)) == "a"
  {
    var c := Call("call", " ", "system", '.', "runtime", '.', "kill_query", "", "", false, "", "", "b", ")");
    var before := "query_id=>'a'";
    var body := before + Printed(c);
    assert body == "query_id" + ("" + ("=>" + ("" + ("'" + ("a" + ("'" + Printed(c)))))));
    assert body[0..] == body;
    IdAccepted(body, "query_id", "", "=>", "", "a", Printed(c));
    EarlierIdWins(before, c, 0);
  }

  lemma {:induction false} NoCallNoId(body: string)
    requires forall i | 0 <= i < |body| :: body[i] != 'c' && body[i] != 'C'
    ensures ExtractQueryId(body) == ""
  {
    forall i | 0 <= i <= |body| ensures !CallAtStart(body[i..]) {
      assert i < |body| ==> body[i..][0] == body[i];
    }
  }

  /** The leftmost text the second expression matches has this id in it. */
  ghost predicate LeftmostId(body: string, k: nat, id: string) {
    k <= |body| && IdShape(body[k..], id) && forall j, other | 0 <= j < k :: !IdShape(body[j..], other)
  }

  lemma {:induction false} KillQueryIsExact(body: string)
    ensures IsKillQuery(body) <==> exists i :: 0 <= i <= |body| && CallShape(body[i..])
  {
    forall i | 0 <= i <= |body| ensures CallAtStart(body[i..]) <==> CallShape(body[i..]) {
      CallMatcherIsExact(body[i..]);
    }
  }

  lemma {:induction false} LeftmostIsFirst(body: string, k: nat, id: string)
    requires LeftmostId(body, k, id)
    ensures FirstId(body) == Some(id)
  {
    IdMatcherIsExact(body[k..], id);
    forall j | 0 <= j < k ensures IdAtStart(body[j..]).None? {
      if IdAtStart(body[j..]).Some? {
        IdMatcherIsExact(body[j..], IdAtStart(body[j..]).value);
      }
    }
    FirstIdIsLeftmost(body, k);
  }

  lemma {:induction false} FirstIsLeftmost(body: string) returns (k: nat)
    requires FirstId(body).Some?
    ensures LeftmostId(body, k, FirstId(body).value)
  {
    k := FirstIdFound(body);
    IdMatcherIsExact(body[k..], FirstId(body).value);
    forall j, other | 0 <= j < k ensures !IdShape(body[j..], other) {
      IdMatcherIsExact(body[j..], other);
    }
  }

  /** An id is extracted from exactly the texts that hold a call and whose leftmost quoted argument it is. */
  lemma {:induction false} ExtractionExactly(body: string, id: string)
    requires id != ""
    ensures ExtractQueryId(body) == id <==>
            (exists i :: 0 <= i <= |body| && CallShape(body[i..])) && (exists k: nat :: LeftmostId(body, k, id))
  {
    KillQueryIsExact(body);
    if ExtractQueryId(body) == id {
      var k := FirstIsLeftmost(body);
      assert LeftmostId(body, k, id);
    }
    if k: nat :| LeftmostId(body, k, id) {
      LeftmostIsFirst(body, k, id);
    }
  }

  lemma {:induction false} FirstIdFound(body: string) returns (i: nat)
    requires FirstId(body).Some?
    ensures i <= |body| && IdAtStart(body[i..]) == FirstId(body)
    ensures forall j | 0 <= j < i :: IdAtStart(body[j..]).None?
  {
    assert body[0..] == body;
    if IdAtStart(body).Some? {
      i := 0;
    } else {
      var k := FirstIdFound(body[1..]);
      i := k + 1;
      forall j | 0 <= j < i ensures IdAtStart(body[j..]).None? {
        if j > 0 {
          assert body[j..] == body[1..][j - 1..];
        }
      }
      assert body[i..] == body[1..][k..];
    }
  }

  // ----- Character by character -----

  /** What a text must begin with for the first expression to match there. */
  lemma {:induction false} CallParts(t: string)
    returns (head: string, spaces: string, system: string, dot1: char, runtime: string, dot2: char, name: string,
             rest: string)
    requires CallAtStart(t)
    ensures head == "call" || head == "CALL"
    ensures spaces != "" && forall i | 0 <= i < |spaces| :: spaces[i] == ' '
    ensures system == "system" || system == "\"system\""
    ensures runtime == "runtime" || runtime == "\"runtime\""
    ensures name == "kill_query" || name == "\"kill_query\""
    ensures dot1 != '\n' && dot2 != '\n'
    ensures t == head + (spaces + (system + ([dot1] + (runtime + ([dot2] + (name + rest))))))
  {
    CallMatcherIsExact(t);
    head, spaces, system, dot1, runtime, dot2, name, rest :|
      IsCall(t, head, spaces, system, dot1, runtime, dot2, name, rest);
  }

  /** What a text must begin with for the second expression to match there and capture the id. */
  lemma {:induction false} IdParts(t: string, id: string)
    returns (lead: string, spaces1: string, middle: string, spaces2: string, rest: string)
    requires IdAtStart(t) == Some(id)
    ensures || ((lead == "kill_query" || lead == "\"kill_query\"") && middle == "(")
            || (lead == "query_id" && middle == "=>")
    ensures forall i | 0 <= i < |spaces1| :: spaces1[i] == ' '
    ensures forall i | 0 <= i < |spaces2| :: spaces2[i] == ' '
    ensures forall i | 0 <= i < |id| ::
              'A' <= id[i] <= 'Z' || 'a' <= id[i] <= 'z' || '0' <= id[i] <= '9' || id[i] == '_' || id[i] == '-'
    ensures t == lead + (spaces1 + (middle + (spaces2 + ("'" + (id + ("'" + rest))))))
  {
    IdMatcherIsExact(t, id);
    lead, spaces1, middle, spaces2, rest :| IsIdText(t, lead, spaces1, middle, spaces2, id, rest);
  }

  /** Only letters, digits, underscores and hyphens are ever extracted. */
  lemma {:induction false} ExtractedIdIsWord(body: string)
    ensures var id := ExtractQueryId(body);
            forall i | 0 <= i < |id| ::
              'A' <= id[i] <= 'Z' || 'a' <= id[i] <= 'z' || '0' <= id[i] <= '9' || id[i] == '_' || id[i] == '-'
  {
    if FirstId(body).Some? {
      var k := FirstIdFound(body);
      var lead, spaces1, middle, spaces2, rest := IdParts(body[k..], FirstId(body).value);
    }
  }

  lemma NoIdThere(t: string)
    requires t != "" && t[0] != 'k' && t[0] != 'q' && t[0] != '"'
    ensures IdAtStart(t).None?
  {
    assert "kill_query"[0] == 'k' && Quote("kill_query")[0] == '"' && "query_id"[0] == 'q';
  }

  lemma NoIdWithin(before: string, t: string)
    requires forall i | 0 <= i < |before| :: before[i] != 'k' && before[i] != 'q' && before[i] != '"'
    ensures forall i | 0 <= i < |before| :: IdAtStart((before + t)[i..]).None?
  {
    forall i | 0 <= i < |before| ensures IdAtStart((before + t)[i..]).None? {
      NoIdThere((before + t)[i..]);
    }
  }

  /**
   Every id of letters, digits, underscores and hyphens is extracted from a call that names it,
   in either notation and with any spacing, quoting and separators, whatever follows, and
   behind any text without the characters that could begin an id.
   */
  lemma {:induction false} ExtractsEveryId(before: string, c: Call)
    requires forall i | 0 <= i < |before| :: before[i] != 'k' && before[i] != 'q' && before[i] != '"'
    requires c.head == "call" || c.head == "CALL"
    requires c.system == "system" || c.system == "\"system\""
    requires c.runtime == "runtime" || c.runtime == "\"runtime\""
    requires c.name == "kill_query" || c.name == "\"kill_query\""
    requires c.dot1 != '\n' && c.dot2 != '\n'
    requires c.spaces != "" && forall i | 0 <= i < |c.spaces| :: c.spaces[i] == ' '
    requires forall i | 0 <= i < |c.spaces1| :: c.spaces1[i] == ' '
    requires forall i | 0 <= i < |c.spaces2| :: c.spaces2[i] == ' '
    requires forall i | 0 <= i < |c.spaces3| :: c.spaces3[i] == ' '
    requires forall i | 0 <= i < |c.spaces4| :: c.spaces4[i] == ' '
    requires forall i | 0 <= i < |c.id| ::
               || 'A' <= c.id[i] <= 'Z' || 'a' <= c.id[i] <= 'z' || '0' <= c.id[i] <= '9'
               || c.id[i] == '_' || c.id[i] == '-'
    ensures var quoted := "'" + (c.id + ("'" + c.rest));
            var argument := if c.named then "query_id" + (c.spaces3 + ("=>" + (c.spaces4 + quoted))) else quoted;
            var call := c.head + (c.spaces + (c.system + ([c.dot1] + (c.runtime + ([c.dot2] + (c.name +
                        (c.spaces1 + ("(" + (c.spaces2 + argument)))))))));
            ExtractQueryId(before + call) == c.id
  {
    assert Printable(c);
    NoIdWithin(before, Printed(c));
    ExtractsPrintedId(before, c);
  }
}
