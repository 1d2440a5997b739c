/** What the patterns of the two scripts match, as concatenations, and how lines make up a text. */
module BuildPatterns {
  import opened Wrappers
  import opened BuildText

  // ---------------------------------------------------------------- lines

  /** A text is its lines with a newline between any two: there is one more of them than newlines in
      the text and none in a line. */
  lemma {:induction false} SplitIs(content: string)
    ensures Join(Split(content)) == content && |Split(content)| == multiset(content)[10 as char] + 1
    ensures forall line <- Split(content) :: (10 as char) !in line
  {
    SplitOneLine(content);
    if content != "" {
      var rest := Split(content[1..]);
      SplitIs(content[1..]);
      assert content == [content[0]] + content[1..];
      assert multiset(content) == multiset([content[0]]) + multiset(content[1..]);
      if content[0] == '\n' {
        assert ([""] + rest)[1..] == rest;
        assert Join([""] + rest) == "" + "\n" + Join(rest);
      } else {
        JoinFront(content[0], rest);
      }
    }
  }

  lemma JoinFront(c: char, lines: seq<string>)
    requires lines != []
    ensures Join([[c] + lines[0]] + lines[1..]) == [c] + Join(lines)
  {
    var more := [[c] + lines[0]] + lines[1..];
    if |lines| > 1 {
      assert more[1..] == lines[1..];
      assert [c] + lines[0] + "\n" + Join(lines[1..]) == [c] + (lines[0] + "\n" + Join(lines[1..]));
    }
  }

  /** Net counts the opening parentheses less the closing ones. */
  lemma {:induction false} NetIs(s: string)
    ensures Net(s) + multiset(s)[')'] == multiset(s)['(']
  {
    if s != "" {
      NetIs(s[1..]);
      assert s == [s[0]] + s[1..];
    }
  }

  // ---------------------------------------------------------------- white space

  /** Spaces, and the control characters 9 to 13 and 28 to 31. */
  predicate White(s: string) {
    forall c <- s :: c as int == 32 || 9 <= c as int <= 13 || 28 <= c as int <= 31
  }

  lemma WhiteIsBlank(s: string)
    ensures White(s) <==> AllBlank(s)
  {
    forall c <- s ensures Blank(c) <==> c as int == 32 || 9 <= c as int <= 13 || 28 <= c as int <= 31 {
    }
  }

  lemma {:induction false} TrimTail(body: string, tail: string)
    requires AllBlank(tail) && body != "" && !Blank(body[|body| - 1])
    ensures TrimRight(body + tail) == body
  {
    if tail == "" {
      assert body + tail == body;
    } else {
      TrimTail(body, tail[..|tail| - 1]);
      assert (body + tail)[..|body + tail| - 1] == body + tail[..|tail| - 1];
    }
  }

  /** What TrimRight cuts off. */
  lemma {:induction false} TrimmedTail(s: string) returns (tail: string)
    ensures AllBlank(tail) && s == TrimRight(s) + tail
    ensures TrimRight(s) != "" ==> !Blank(TrimRight(s)[|TrimRight(s)| - 1])
  {
    if s != "" && Blank(s[|s| - 1]) {
      tail := TrimmedTail(s[..|s| - 1]);
      tail := tail + [s[|s| - 1]];
      assert s == s[..|s| - 1] + [s[|s| - 1]];
    } else {
      tail := "";
    }
  }

  lemma {:induction false} TrimLeftStarts(s: string)
    ensures TrimLeft(s) != "" ==> !Blank(TrimLeft(s)[0])
  {
    if s != "" && Blank(s[0]) {
      TrimLeftStarts(s[1..]);
    }
  }

  lemma {:induction false} TrimWhite(white: string, s: string)
    requires AllBlank(white)
    ensures TrimLeft(white + s) == TrimLeft(s)
  {
    if white == "" {
      assert white + s == s;
    } else {
      assert (white + s)[1..] == white[1..] + s;
      TrimWhite(white[1..], s);
    }
  }

  // ---------------------------------------------------------------- headers

  /** One of the three rules, white space or none, an opening parenthesis, and anything. */
  ghost predicate HeaderLine(line: string) {
    exists rule: string, gap: string, rest: string :: IsHeader(line, rule, gap, rest)
  }

  ghost predicate IsHeader(line: string, rule: string, gap: string, rest: string) {
    && (rule == "vivado_library" || rule == "vhdl_library" || rule == "vhdl_test")
    && White(gap) && line == rule + gap + "(" + rest
  }

  lemma HeaderOfIff(rule: string, line: string)
    ensures HeaderOf(rule, line) <==> exists gap: string, rest: string :: White(gap) && line == rule + gap + "(" + rest
  {
    if HeaderOf(rule, line) {
      var after := line[|rule|..];
      LeadTrim(after);
      WhiteIsBlank(Lead(after));
      var rest := TrimLeft(after)[1..];
      assert TrimLeft(after) == "(" + rest;
      assert line == rule + after == rule + Lead(after) + "(" + rest;
    }
    if gap: string, rest: string :| White(gap) && line == rule + gap + "(" + rest {
      WhiteIsBlank(gap);
      assert line[|rule|..] == gap + ("(" + rest);
      TrimIndented(gap, "(" + rest);
    }
  }

  lemma HeaderIff(line: string)
    ensures Header(line) <==> HeaderLine(line)
  {
    hide HeaderOf, White;
    HeaderOfIff("vivado_library", line);
    HeaderOfIff("vhdl_library", line);
    HeaderOfIff("vhdl_test", line);
    if rule: string, gap: string, rest: string :| IsHeader(line, rule, gap, rest) {
    }
    if Header(line) {
      var rule := if HeaderOf("vivado_library", line) then "vivado_library"
      else if HeaderOf("vhdl_library", line) then "vhdl_library" else "vhdl_test";
      var gap: string, rest: string :| White(gap) && line == rule + gap + "(" + rest;
      assert IsHeader(line, rule, gap, rest);
    }
  }

  // ---------------------------------------------------------------- attributes

  /** An attribute line: the key with white space around it, an equals sign, white space, the value. */
  ghost predicate IsAssigned(line: string, indent: string, key: string, b: string, c: string, value: string) {
    White(indent) && White(b) && White(c) && line == indent + key + b + "=" + c + value
  }

  lemma AssignedParts(key: string, line: string) returns (b: string, c: string)
    requires key != "" && !Blank(key[0]) && Assigned(key, TrimLeft(line)).Some?
    ensures IsAssigned(line, Lead(line), key, b, c, Assigned(key, TrimLeft(line)).value)
  {
    var text := TrimLeft(line);
    var after := text[|key|..];
    LeadTrim(line);
    LeadTrim(after);
    var t := TrimLeft(after);
    LeadTrim(t[1..]);
    b, c := Lead(after), Lead(t[1..]);
    WhiteIsBlank(Lead(line));
    WhiteIsBlank(b);
    WhiteIsBlank(c);
    var value := TrimLeft(t[1..]);
    hide *;
    assert t == "=" + t[1..];
    assert text == key + after;
    AssignedJoined(line, Lead(line), key, b, c, value);
  }

  lemma AssignedJoined(line: string, indent: string, key: string, b: string, c: string, value: string)
    requires White(indent) && White(b) && White(c) && line == indent + (key + (b + ("=" + (c + value))))
    ensures IsAssigned(line, indent, key, b, c, value)
  {
    hide White;
    assert line == indent + key + b + "=" + c + value;
  }

  lemma AssignedValue(line: string, indent: string, key: string, b: string, c: string, value: string)
    requires key != "" && !Blank(key[0]) && IsAssigned(line, indent, key, b, c, value)
    ensures Assigned(key, TrimLeft(line)) == Some(TrimLeft(value)) && Lead(line) == indent
  {
    WhiteIsBlank(indent);
    WhiteIsBlank(b);
    WhiteIsBlank(c);
    hide White, AllBlank, TrimLeft, Lead;
    var after := b + ("=" + (c + value));
    assert line == indent + (key + after);
    TrimIndented(indent, key + after);
    assert (key + after)[|key|..] == after;
    TrimIndented(b, "=" + (c + value));
    assert ("=" + (c + value))[1..] == c + value;
    TrimWhite(c, value);
  }

  /** vhdl1993 = True, with a comma or not, and nothing else. */
  ghost predicate Vhdl1993Line(line: string) {
    exists indent: string, b: string, c: string, value: string, tail: string ::
      IsVhdl1993(line, indent, b, c, value, tail)
  }

  ghost predicate IsVhdl1993(line: string, indent: string, b: string, c: string, value: string, tail: string) {
    && IsAssigned(line, indent, "vhdl1993", b, c, value + tail)
    && (value == "True" || value == "True,") && White(tail)
  }

  lemma Vhdl1993Iff(line: string)
    ensures Vhdl1993(line) <==> Vhdl1993Line(line)
  {
    if Vhdl1993(line) {
      Vhdl1993Forward(line);
    }
    if indent: string, b: string, c: string, value: string, tail: string :|
        IsVhdl1993(line, indent, b, c, value, tail) {
      Vhdl1993Backward(line, indent, b, c, value, tail);
    }
  }

  /** What Strip cuts off. */
  lemma StripParts(line: string) returns (tail: string)
    ensures White(Lead(line)) && White(tail) && line == Lead(line) + (Strip(line) + tail)
  {
    LeadTrim(line);
    tail := TrimmedTail(TrimLeft(line));
    WhiteIsBlank(Lead(line));
    WhiteIsBlank(tail);
  }

  lemma Vhdl1993Forward(line: string)
    requires Vhdl1993(line)
    ensures Vhdl1993Line(line)
  {
    var text := Strip(line);
    var value := Assigned("vhdl1993", text).value;
    assert text[0] == 'v';
    assert TrimLeft(text) == text && Lead(text) == "";
    hide Assigned, TrimLeft, TrimRight, Lead, Strip, IsAssigned;
    var b, c := AssignedParts("vhdl1993", text);
    var tail := StripParts(line);
    AssignedInside(line, Lead(line), text, "vhdl1993", b, c, value, tail);
    assert IsVhdl1993(line, Lead(line), b, c, value, tail);
  }

  lemma AssignedInside(line: string, indent: string, text: string, key: string, b: string, c: string, value: string,
                       tail: string)
    requires IsAssigned(text, "", key, b, c, value) && White(indent) && line == indent + (text + tail)
    ensures IsAssigned(line, indent, key, b, c, value + tail)
  {
    hide White;
    assert text + tail == key + (b + ("=" + (c + (value + tail))));
    AssignedJoined(line, indent, key, b, c, value + tail);
  }

  lemma Vhdl1993Backward(line: string, indent: string, b: string, c: string, value: string, tail: string)
    requires IsVhdl1993(line, indent, b, c, value, tail)
    ensures Vhdl1993(line)
  {
    WhiteIsBlank(indent);
    WhiteIsBlank(tail);
    assert White("");
    assert TrimLeft(value) == value;
    hide Assigned, TrimLeft, TrimRight, Lead, White, AllBlank;
    var body := "vhdl1993" + b + "=" + c + value;
    assert body[0] == 'v' && (body[|body| - 1] == 'e' || body[|body| - 1] == ',');
    assert line == indent + (body + tail);
    TrimIndented(indent, body + tail);
    TrimTail(body, tail);
    assert body == "" + "vhdl1993" + b + "=" + c + value;
    AssignedValue(body, "", "vhdl1993", b, c, value);
    TrimIndented("", body);
    assert "" + body == body;
  }

  /** The standard set to something in quotes, with a comma or not, and nothing else. */
  ghost predicate StandardLine(line: string, indent: string, comma: string) {
    exists b: string, c: string, text: string, tail: string :: IsStandard(line, indent, comma, b, c, text, tail)
  }

  ghost predicate IsStandard(line: string, indent: string, comma: string, b: string, c: string, text: string,
                             tail: string) {
    && IsAssigned(line, indent, "standard", b, c, "\"" + text + "\"" + comma + tail)
    && (comma == "" || comma == ",") && White(tail)
  }

  lemma QuotedCommaParts(value: string) returns (text: string, tail: string)
    requires QuotedComma(value).Some?
    ensures White(tail) && value == "\"" + text + "\"" + QuotedComma(value).value + tail
  {
    tail := TrimmedTail(value);
    WhiteIsBlank(tail);
    var v, comma := TrimRight(value), QuotedComma(value).value;
    var quoted := v[..|v| - |comma|];
    assert v == quoted + comma;
    text := quoted[1..|quoted| - 1];
    assert quoted == "\"" + text + "\"";
  }

  lemma QuotedCommaOf(text: string, comma: string, tail: string)
    requires (comma == "" || comma == ",") && White(tail)
    ensures QuotedComma("\"" + text + "\"" + comma + tail) == Some(comma)
  {
    WhiteIsBlank(tail);
    var v := "\"" + text + "\"" + comma;
    assert !Blank(v[|v| - 1]);
    TrimTail(v, tail);
    assert v[..|v| - |comma|] == "\"" + text + "\"";
  }

  lemma StandardIff(line: string, indent: string, comma: string)
    ensures Standard(line) == Some(Parts(indent, comma)) <==> StandardLine(line, indent, comma)
  {
    hide Assigned, TrimLeft, TrimRight, Lead, White, QuotedComma, Blank;
    StandardKey();
    if Standard(line) == Some(Parts(indent, comma)) {
      var value := Assigned("standard", TrimLeft(line)).value;
      var b, c := AssignedParts("standard", line);
      var text, tail := QuotedCommaParts(value);
      StandardSensible(line);
      assert IsStandard(line, indent, comma, b, c, text, tail);
    }
    if b: string, c: string, text: string, tail: string :| IsStandard(line, indent, comma, b, c, text, tail) {
      var value := "\"" + text + "\"" + comma + tail;
      AssignedValue(line, indent, "standard", b, c, value);
      QuoteStays(value);
      QuotedCommaOf(text, comma, tail);
    }
  }

  lemma StandardKey()
    ensures !Blank("standard"[0]) && !Blank("name"[0])
  {
  }

  lemma QuoteStays(value: string)
    requires "\"" <= value
    ensures TrimLeft(value) == value
  {
  }

  /** What the validator takes for the standard: it need not be all of the value. */
  ghost predicate Standard2019Line(line: string) {
    exists indent: string, b: string, c: string, rest: string ::
      IsAssigned(line, indent, "standard", b, c, "\"2019\"" + rest)
  }

  lemma Standard2019Iff(line: string)
    ensures Standard2019(line) <==> Standard2019Line(line)
  {
    hide Assigned, TrimLeft, Lead, IsAssigned, Blank;
    StandardKey();
    if Standard2019(line) {
      var value := Assigned("standard", TrimLeft(line)).value;
      var b, c := AssignedParts("standard", line);
      assert value == "\"2019\"" + value[6..];
      assert IsAssigned(line, Lead(line), "standard", b, c, "\"2019\"" + value[6..]);
    }
    if indent: string, b: string, c: string, rest: string :|
        IsAssigned(line, indent, "standard", b, c, "\"2019\"" + rest) {
      AssignedValue(line, indent, "standard", b, c, "\"2019\"" + rest);
      assert ("\"2019\"" + rest)[0] == '"';
      QuoteStays("\"2019\"" + rest);
    }
  }

  /** The name: what is between the first two quotes of the value, if there is something. */
  ghost predicate NameLine(line: string, name: string) {
    && name != "" && '"' !in name
    && exists indent: string, b: string, c: string, rest: string ::
         IsAssigned(line, indent, "name", b, c, "\"" + name + "\"" + rest)
  }

  lemma {:induction false} UpToQuoteIs(s: string)
    ensures var text := UpToQuote(s); text <= s && '"' !in text && (|text| < |s| ==> s[|text|] == '"')
  {
    if s != "" && s[0] != '"' {
      UpToQuoteIs(s[1..]);
    }
  }

  lemma {:induction false} UpToQuoteStops(text: string, rest: string)
    requires '"' !in text
    ensures UpToQuote(text + "\"" + rest) == text
  {
    var s := text + "\"" + rest;
    if text != "" {
      assert s[1..] == text[1..] + "\"" + rest;
      UpToQuoteStops(text[1..], rest);
      assert [text[0]] + text[1..] == text;
    }
  }

  lemma NameIff(line: string, name: string)
    ensures Name(line) == Some(name) <==> NameLine(line, name)
  {
    hide Assigned, TrimLeft, Lead, IsAssigned, UpToQuote, Blank;
    StandardKey();
    if Name(line) == Some(name) {
      var value := Assigned("name", TrimLeft(line)).value;
      var b, c := AssignedParts("name", line);
      UpToQuoteIs(value[1..]);
      var rest := value[|name| + 2..];
      assert value == "\"" + value[1..] && value[1..] == name + "\"" + rest;
      assert value == "\"" + name + "\"" + rest;
      assert IsAssigned(line, Lead(line), "name", b, c, "\"" + name + "\"" + rest);
    }
    if NameLine(line, name) {
      var indent: string, b: string, c: string, rest: string :|
        IsAssigned(line, indent, "name", b, c, "\"" + name + "\"" + rest);
      var value := "\"" + name + "\"" + rest;
      AssignedValue(line, indent, "name", b, c, value);
      QuoteStays(value);
      assert value[1..] == name + "\"" + rest;
      UpToQuoteStops(name, rest);
    }
  }

  /** A closing parenthesis and nothing else. */
  ghost predicate CloseLine(line: string) {
    exists indent: string, tail: string :: White(indent) && White(tail) && line == indent + ")" + tail
  }

  lemma LoneCloseIff(line: string)
    ensures LoneClose(line) <==> CloseLine(line)
  {
    if LoneClose(line) {
      LeadTrim(line);
      var tail := TrimmedTail(TrimLeft(line));
      WhiteIsBlank(Lead(line));
      WhiteIsBlank(tail);
      assert line == Lead(line) + ")" + tail;
    }
    if indent: string, tail: string :| White(indent) && White(tail) && line == indent + ")" + tail {
      WhiteIsBlank(indent);
      WhiteIsBlank(tail);
      assert line == indent + (")" + tail);
      TrimIndented(indent, ")" + tail);
      TrimTail(")", tail);
    }
  }
}
