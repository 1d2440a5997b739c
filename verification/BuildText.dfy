/** The lines of build files and the patterns the two scripts look for in them. */
module BuildText {
  import opened Wrappers

  // ---------------------------------------------------------------- lines

  function Split(content: string): (lines: seq<string>)
    ensures lines != []
  {
    if content == "" then [""]
    else
      var rest := Split(content[1..]);
      if content[0] == '\n' then [""] + rest else [[content[0]] + rest[0]] + rest[1..]
  }

  function Join(lines: seq<string>): string
    requires lines != []
  {
    if |lines| == 1 then lines[0] else lines[0] + "\n" + Join(lines[1..])
  }

  predicate OneLine(line: string) {
    '\n' !in line
  }

  predicate AllOneLine(lines: seq<string>) {
    forall line <- lines :: OneLine(line)
  }

  lemma {:induction false} SplitOneLine(content: string)
    ensures AllOneLine(Split(content))
  {
    if content != "" {
      SplitOneLine(content[1..]);
      var rest := Split(content[1..]);
      assert OneLine(rest[0]);
      forall line <- Split(content) ensures OneLine(line) {
        assert line in rest || line == "" || line == [content[0]] + rest[0];
      }
    }
  }

  lemma {:induction false} SplitLine(line: string, more: string)
    requires OneLine(line)
    ensures Split(line) == [line] && Split(line + "\n" + more) == [line] + Split(more)
  {
    if line == "" {
      assert ("" + "\n" + more)[1..] == more;
    } else {
      SplitLine(line[1..], more);
      assert (line + "\n" + more)[1..] == line[1..] + "\n" + more;
      assert [line[0]] + line[1..] == line;
    }
  }

  lemma {:induction false} SplitJoin(lines: seq<string>)
    requires lines != [] && AllOneLine(lines)
    ensures Split(Join(lines)) == lines
  {
    assert OneLine(lines[0]);
    if |lines| == 1 {
      SplitLine(lines[0], "");
    } else {
      SplitJoin(lines[1..]);
      SplitLine(lines[0], Join(lines[1..]));
    }
  }

  // ---------------------------------------------------------------- white space and parentheses

  predicate Blank(c: char) {
    c == ' ' || '\t' <= c <= '\r' || '\U{1c}' <= c <= '\U{1f}'
  }

  predicate AllBlank(s: string) {
    forall c <- s :: Blank(c)
  }

  function Lead(s: string): (r: string) {
    if s != "" && Blank(s[0]) then [s[0]] + Lead(s[1..]) else ""
  }

  function TrimLeft(s: string): (r: string) {
    if s != "" && Blank(s[0]) then TrimLeft(s[1..]) else s
  }

  function TrimRight(s: string): (r: string) {
    if s != "" && Blank(s[|s| - 1]) then TrimRight(s[..|s| - 1]) else s
  }

  function Strip(s: string): string {
    TrimRight(TrimLeft(s))
  }

  /** Opening parentheses less closing ones. */
  function Net(s: string): int {
    if s == "" then 0 else (if s[0] == '(' then 1 else if s[0] == ')' then -1 else 0) + Net(s[1..])
  }

  lemma {:induction false} NetConcat(a: string, b: string)
    ensures Net(a + b) == Net(a) + Net(b)
  {
    if a == "" {
      assert a + b == b;
    } else {
      NetConcat(a[1..], b);
      assert (a + b)[1..] == a[1..] + b;
    }
  }

  lemma {:induction false} NetBlank(s: string)
    requires AllBlank(s)
    ensures Net(s) == 0
  {
    if s != "" {
      assert Blank(s[0]);
      NetBlank(s[1..]);
    }
  }

  lemma {:induction false} LeadTrim(s: string)
    ensures s == Lead(s) + TrimLeft(s) && AllBlank(Lead(s))
  {
    if s != "" && Blank(s[0]) {
      LeadTrim(s[1..]);
      assert [s[0]] + s[1..] == s;
    }
  }

  lemma {:induction false} NetTrimRight(s: string)
    ensures Net(TrimRight(s)) == Net(s)
  {
    if s != "" && Blank(s[|s| - 1]) {
      NetTrimRight(s[..|s| - 1]);
      assert s[..|s| - 1] + [s[|s| - 1]] == s;
      NetConcat(s[..|s| - 1], [s[|s| - 1]]);
    }
  }

  lemma NetTrimLeft(s: string)
    ensures Net(TrimLeft(s)) == Net(s)
  {
    LeadTrim(s);
    NetConcat(Lead(s), TrimLeft(s));
    NetBlank(Lead(s));
  }

  lemma {:induction false} TrimIndented(indent: string, body: string)
    requires AllBlank(indent) && body != "" && !Blank(body[0])
    ensures Lead(indent + body) == indent && TrimLeft(indent + body) == body
  {
    if indent == "" {
      assert indent + body == body;
    } else {
      TrimIndented(indent[1..], body);
      assert (indent + body)[1..] == indent[1..] + body;
    }
  }

  // ---------------------------------------------------------------- the patterns

  predicate HeaderOf(rule: string, line: string) {
    rule <= line && "(" <= TrimLeft(line[|rule|..])
  }

  /** The line opens a target of one of the three rules. */
  predicate Header(line: string) {
    HeaderOf("vivado_library", line) || HeaderOf("vhdl_library", line) || HeaderOf("vhdl_test", line)
  }

  /** What is assigned to the attribute the text starts with. */
  function Assigned(key: string, text: string): Option<string> {
    if !(key <= text) then None
    else
      var t := TrimLeft(text[|key|..]);
      if "=" <= t then Some(TrimLeft(t[1..])) else None
  }

  predicate Vhdl1993(line: string) {
    var value := Assigned("vhdl1993", Strip(line));
    value == Some("True") || value == Some("True,")
  }

  datatype Parts = Parts(indent: string, comma: string)

  /** If the text is something in quotes to the end, the comma after it or nothing. */
  function QuotedComma(value: string): Option<string> {
    var v := TrimRight(value);
    var comma := if v != "" && v[|v| - 1] == ',' then "," else "";
    var quoted := v[..|v| - |comma|];
    if |quoted| >= 2 && quoted[0] == '"' && quoted[|quoted| - 1] == '"' then Some(comma) else None
  }

  /** The line sets the standard to something in quotes; with what indentation, and with a comma or not. */
  function Standard(line: string): Option<Parts> {
    match Assigned("standard", TrimLeft(line))
    case None => None
    case Some(value) =>
      match QuotedComma(value)
      case None => None
      case Some(comma) => Some(Parts(Lead(line), comma))
  }

  function Rewritten(parts: Parts): string {
    parts.indent + "standard = \"2019\"" + parts.comma
  }

  predicate LoneClose(line: string) {
    Strip(line) == ")"
  }

  /** What the validator takes for the standard being set. */
  predicate Standard2019(line: string) {
    match Assigned("standard", TrimLeft(line))
    case None => false
    case Some(value) => "\"2019\"" <= value
  }

  /** The text up to the next quote. */
  function UpToQuote(s: string): string {
    if s == "" || s[0] == '"' then "" else [s[0]] + UpToQuote(s[1..])
  }

  /** The name the line gives the target, for the validator. */
  function Name(line: string): Option<string> {
    match Assigned("name", TrimLeft(line))
    case None => None
    case Some(value) =>
      if !("\"" <= value) then None
      else
        var name := UpToQuote(value[1..]);
        if name != "" && |name| + 1 < |value| then Some(name) else None
  }

  // ---------------------------------------------------------------- how they relate

  predicate Sensible(parts: Parts) {
    AllBlank(parts.indent) && (parts.comma == "" || parts.comma == ",")
  }

  lemma StandardSensible(line: string)
    requires Standard(line).Some?
    ensures Sensible(Standard(line).value)
  {
    LeadTrim(line);
  }

  function Body(comma: string): string {
    "standard = \"2019\"" + comma
  }

  lemma BodyParsed(comma: string)
    requires comma == "" || comma == ","
    ensures Assigned("standard", Body(comma)) == Some("\"2019\"" + comma)
    ensures Assigned("name", Body(comma)) == None && Assigned("vhdl1993", Body(comma)) == None
  {
    hide TrimLeft;
    var text, value := Body(comma), "\"2019\"" + comma;
    assert text[|"standard"|..] == " " + ("= " + value);
    TrimIndented(" ", "= " + value);
    assert ("= " + value)[1..] == " " + value;
    TrimIndented(" ", value);
    assert text[0] == 's' && "name"[0] == 'n' && "vhdl1993"[0] == 'v';
  }

  lemma BodyFlat(comma: string)
    requires comma == "" || comma == ","
    ensures TrimRight(Body(comma)) == Body(comma) && Net(Body(comma)) == 0
  {
    NetFlat(Body(comma));
  }

  lemma {:induction false} NetFlat(s: string)
    requires '(' !in s && ')' !in s
    ensures Net(s) == 0
  {
    if s != "" {
      NetFlat(s[1..]);
    }
  }

  lemma ValueParsed(comma: string)
    requires comma == "" || comma == ","
    ensures QuotedComma("\"2019\"" + comma) == Some(comma)
  {
    var value := "\"2019\"" + comma;
    assert TrimRight(value) == value;
    assert value[..|value| - |comma|] == "\"2019\"";
  }

  /** A rewritten line is recognized by both scripts, and rewriting it again changes nothing. */
  lemma RewrittenAgain(parts: Parts)
    requires Sensible(parts)
    ensures var line := Rewritten(parts); Standard(line) == Some(parts) && Standard2019(line) && Name(line) == None
  {
    hide TrimLeft, Lead, Assigned, QuotedComma;
    assert Rewritten(parts) == parts.indent + Body(parts.comma);
    BodyParsed(parts.comma);
    TrimIndented(parts.indent, Body(parts.comma));
    ValueParsed(parts.comma);
  }

  lemma RewrittenPlain(parts: Parts)
    requires Sensible(parts)
    ensures var line := Rewritten(parts); !Header(line) && !Vhdl1993(line) && Net(line) == 0
  {
    hide TrimLeft, TrimRight, Lead, Assigned, Net;
    var line, body := Rewritten(parts), Body(parts.comma);
    assert line == parts.indent + body;
    assert line[0] == 's' || Blank(line[0]);
    assert "vivado_library"[0] == 'v' && "vhdl_library"[0] == 'v' && "vhdl_test"[0] == 'v';
    BodyParsed(parts.comma);
    BodyFlat(parts.comma);
    TrimIndented(parts.indent, body);
    NetConcat(parts.indent, body);
    NetBlank(parts.indent);
  }

  lemma NetAssigned(key: string, text: string)
    requires Assigned(key, text).Some? && '(' !in key && ')' !in key
    ensures Net(text) == Net(Assigned(key, text).value)
  {
    var t := TrimLeft(text[|key|..]);
    assert text == key + text[|key|..] && t == "=" + t[1..];
    NetConcat(key, text[|key|..]);
    NetFlat(key);
    NetTrimLeft(text[|key|..]);
    NetTrimLeft(t[1..]);
  }

  lemma NetStrip(line: string)
    ensures Net(Strip(line)) == Net(line)
  {
    NetTrimLeft(line);
    NetTrimRight(TrimLeft(line));
  }

  /** A line that sets vhdl1993 opens and closes nothing. */
  lemma Vhdl1993Net(line: string)
    requires Vhdl1993(line)
    ensures Net(line) == 0
  {
    var value := Assigned("vhdl1993", Strip(line)).value;
    assert '(' !in value && ')' !in value;
    hide *;
    NetFlat(value);
    NetStrip(line);
    NetAssigned("vhdl1993", Strip(line));
  }

  lemma {:induction false} TrimRightPrefix(s: string)
    ensures TrimRight(s) <= s
  {
    if s != "" && Blank(s[|s| - 1]) {
      TrimRightPrefix(s[..|s| - 1]);
    }
  }

  lemma LoneCloseOnly(line: string)
    requires LoneClose(line)
    ensures Net(line) == -1 && Standard(line) == None && !Standard2019(line) && Name(line) == None && !Vhdl1993(line)
  {
    NetStrip(line);
    assert Net(")") == -1 + Net("");
    TrimRightPrefix(TrimLeft(line));
    assert TrimLeft(line)[0] == ')';
    assert "standard"[0] == 's' && "name"[0] == 'n' && "vhdl1993"[0] == 'v';
  }
}
