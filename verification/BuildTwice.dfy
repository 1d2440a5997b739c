/** Running the rewriter of build files on what it has put out: when that changes nothing. */
module BuildTwice {
  import opened Wrappers
  import opened BuildText
  import opened BuildFiles

  // ---------------------------------------------------------------- a second run

  /** Every line the rewriter rewrites in this run has as many opening as closing parentheses. */
  predicate Balanced(s: State, lines: seq<string>)
    decreases |lines|
  {
    lines == [] || ((Rewrites(s, lines[0]) ==> Net(lines[0]) == 0) && Balanced(Next(s, lines[0]), lines[1..]))
  }

  predicate Same(s: State, t: State) {
    s.inTarget == t.inTarget && (s.inTarget ==> s == t)
  }

  /** The lines outside every target, with those that open one. */
  function Outside(s: State, lines: seq<string>): seq<string>
    decreases |lines|
  {
    if lines == [] then []
    else (if s.inTarget then [] else [lines[0]]) + Outside(Next(s, lines[0]), lines[1..])
  }

  lemma {:induction false} OutsideConcat(s: State, a: seq<string>, b: seq<string>)
    ensures Outside(s, a + b) == Outside(s, a) + Outside(After(s, a), b)
    decreases |a|
  {
    hide Next;
    if a == [] {
      assert a + b == b;
    } else {
      assert (a + b)[0] == a[0] && (a + b)[1..] == a[1..] + b;
      OutsideConcat(Next(s, a[0]), a[1..], b);
    }
  }

  /** What one line becomes is left as it is by a run in the same state, which after it is again in
      the same state, just when the line is balanced if it is one to be rewritten. */
  lemma StepAgain(s: State, t: State, lastS: Option<string>, lastT: Option<string>, line: string)
    requires Same(s, t)
    ensures var e := Emit(s, lastS, line);
            (Rewrites(s, line) ==> Net(line) == 0) ==>
              Run(t, lastT, e) == e && Outside(t, e) == if s.inTarget then [] else [line]
    ensures Same(Next(s, line), After(t, Emit(s, lastS, line))) <==> (Rewrites(s, line) ==> Net(line) == 0)
  {
    hide Standard, Vhdl1993, Header, Net, Lead, LoneClose, Rewritten, Indent;
    if Rewrites(s, line) {
      StandardSensible(line);
      RewrittenAgain(Standard(line).value);
      RewrittenPlain(Standard(line).value);
    } else if s.inTarget && Vhdl1993(line) {
      Vhdl1993Net(line);
    } else if |Emit(s, lastS, line)| == 2 {
      LoneCloseOnly(line);
      InjectedAgain(t, lastS, lastT, line);
    }
  }

  lemma InjectedAgain(t: State, lastS: Option<string>, lastT: Option<string>, line: string)
    requires LoneClose(line) && t == State(true, 1, false)
    ensures var e := [Rewritten(Parts(Indent(lastS), ",")), line];
            Run(t, lastT, e) == e && Outside(t, e) == [] && After(t, e) == State(false, 0, true)
  {
    var parts := Parts(Indent(lastS), ",");
    LoneCloseOnly(line);
    IndentSensible(lastS);
    RewrittenAgain(parts);
    RewrittenPlain(parts);
    hide Standard, Vhdl1993, Header, Net, Lead, LoneClose, Rewritten, Indent;
    var added, u := Rewritten(parts), State(true, 1, true);
    assert Next(t, added) == u && Emit(t, lastT, added) == [added];
    assert Next(u, line) == State(false, 0, true) && Emit(u, Some(added), line) == [line];
    hide Next, Emit;
    assert [added, line] == [added] + [line] && [line] + [] == [line];
    RunFront(t, lastT, added, [line]);
    RunFront(u, Some(added), line, []);
    OutsideConcat(t, [added], [line]);
  }

  /** Running the rewriter on what it put out changes nothing, and finds the same lines outside of
      targets, if every line it rewrote had balanced parentheses. */
  lemma {:induction false} RunAgain(s: State, t: State, lastS: Option<string>, lastT: Option<string>,
    lines: seq<string>)
    requires Same(s, t) && Balanced(s, lines)
    ensures var out := Run(s, lastS, lines); Run(t, lastT, out) == out && Outside(t, out) == Outside(s, lines)
    decreases |lines|
  {
    hide Emit, Next, Same, Rewrites;
    if lines != [] {
      var e := Emit(s, lastS, lines[0]);
      var rest := Run(Next(s, lines[0]), Last(lastS, e), lines[1..]);
      StepAgain(s, t, lastS, lastT, lines[0]);
      RunConcat(t, lastT, e, rest);
      OutsideConcat(t, e, rest);
      RunAgain(Next(s, lines[0]), After(t, e), Last(lastS, e), Last(lastT, e), lines[1..]);
    }
  }

  /** Both runs are in the same state after every line of the file and what became of it. */
  predicate Agree(s: State, t: State, last: Option<string>, lines: seq<string>)
    decreases |lines|
  {
    Same(s, t)
    && (lines == []
        || var e := Emit(s, last, lines[0]); Agree(Next(s, lines[0]), After(t, e), Last(last, e), lines[1..]))
  }

  /** The second run keeps to the states of the first just when every rewritten line is balanced. */
  lemma {:induction false} AgreeIff(s: State, t: State, last: Option<string>, lines: seq<string>)
    requires Same(s, t)
    ensures Agree(s, t, last, lines) <==> Balanced(s, lines)
    decreases |lines|
  {
    hide Emit, Next, Same, Rewrites;
    if lines != [] {
      var e := Emit(s, last, lines[0]);
      StepAgain(s, t, last, None, lines[0]);
      if Same(Next(s, lines[0]), After(t, e)) {
        AgreeIff(Next(s, lines[0]), After(t, e), Last(last, e), lines[1..]);
      } else if lines[1..] == [] {
        assert !Agree(Next(s, lines[0]), After(t, e), Last(last, e), []);
      }
    }
  }

  // ---------------------------------------------------------------- when a run changes nothing

  /** The line is a closing parenthesis before which the run puts in the standard. */
  predicate Injects(t: State, line: string) {
    && t.inTarget && !Vhdl1993(line) && Standard(line) == None
    && t.level + Net(line) == 0 && !t.hasStandard && LoneClose(line)
  }

  /** A run in this state has nothing to do at the line. */
  predicate Kept(t: State, line: string) {
    t.inTarget ==>
      && !Vhdl1993(line) && !Injects(t, line)
      && (Standard(line).Some? ==> line == Rewritten(Standard(line).value))
  }

  predicate Settled(t: State, lines: seq<string>)
    decreases |lines|
  {
    lines == [] || (Kept(t, lines[0]) && Settled(Next(t, lines[0]), lines[1..]))
  }

  lemma KeptIff(t: State, last: Option<string>, line: string)
    ensures Emit(t, last, line) == [line] <==> Kept(t, line)
  {
  }

  function Count1993(lines: seq<string>): nat {
    if lines == [] then 0 else (if Vhdl1993(lines[0]) then 1 else 0) + Count1993(lines[1..])
  }

  lemma {:induction false} CountConcat(a: seq<string>, b: seq<string>)
    ensures Count1993(a + b) == Count1993(a) + Count1993(b)
    decreases |a|
  {
    if a == [] {
      assert a + b == b;
    } else {
      assert (a + b)[0] == a[0] && (a + b)[1..] == a[1..] + b;
      CountConcat(a[1..], b);
    }
  }

  /** A line is dropped, or something is put out for it that sets vhdl1993 just if the line does. */
  lemma EmitCounts(t: State, last: Option<string>, line: string)
    ensures var e, n := Emit(t, last, line), if Vhdl1993(line) then 1 else 0;
            (if t.inTarget && Vhdl1993(line) then e == [] else e != [] && Count1993(e) == n)
            && (Injects(t, line) <==> |e| == 2) && |e| <= 2
  {
    hide Standard, Vhdl1993, Header, Net, Lead, LoneClose, Rewritten, Indent;
    if Rewrites(t, line) {
      StandardSensible(line);
      RewrittenPlain(Standard(line).value);
    } else if Injects(t, line) {
      IndentSensible(last);
      RewrittenPlain(Parts(Indent(last), ","));
      var added := Rewritten(Parts(Indent(last), ","));
      assert [added] + [line] == [added, line];
      CountConcat([added], [line]);
    }
  }

  /** No run puts out more lines that set vhdl1993 than it reads; if as many, it has dropped none. */
  lemma {:induction false} RunCounts(t: State, last: Option<string>, lines: seq<string>)
    ensures var out := Run(t, last, lines);
            Count1993(out) <= Count1993(lines) && (Count1993(out) == Count1993(lines) ==> |lines| <= |out|)
    decreases |lines|
  {
    hide Emit, Next, Vhdl1993, Injects;
    if lines != [] {
      var e, rest := Emit(t, last, lines[0]), lines[1..];
      EmitCounts(t, last, lines[0]);
      RunCounts(Next(t, lines[0]), Last(last, e), rest);
      CountConcat(e, Run(Next(t, lines[0]), Last(last, e), rest));
    }
  }

  /** A run changes nothing just when it has nothing to do at any line: what it drops and what it
      puts in can not make up for each other. */
  lemma {:induction false} SettledIff(t: State, last: Option<string>, lines: seq<string>)
    ensures Run(t, last, lines) == lines <==> Settled(t, lines)
    decreases |lines|
  {
    hide Emit, Next, Vhdl1993, Injects, Kept;
    if lines != [] {
      var line, more := lines[0], lines[1..];
      var e := Emit(t, last, line);
      var out := Run(Next(t, line), Last(last, e), more);
      KeptIff(t, last, line);
      if Kept(t, line) {
        assert ([line] + out)[1..] == out;
        SettledIff(Next(t, line), Last(last, e), more);
        assert [line] + more == lines;
      } else if e + out == lines {
        EmitCounts(t, last, line);
        RunCounts(Next(t, line), Last(last, e), more);
        CountConcat(e, out);
        assert false;
      }
    }
  }

  lemma {:induction false} SettledConcat(t: State, a: seq<string>, b: seq<string>)
    ensures Settled(t, a + b) <==> Settled(t, a) && Settled(After(t, a), b)
    decreases |a|
  {
    hide Next, Kept;
    if a == [] {
      assert a + b == b;
    } else {
      assert (a + b)[0] == a[0] && (a + b)[1..] == a[1..] + b;
      SettledConcat(Next(t, a[0]), a[1..], b);
    }
  }

  // ---------------------------------------------------------------- when a second run changes nothing

  /** The first run puts the line out as it is and for no other reason. */
  predicate Unaltered(s: State, line: string) {
    !s.inTarget || (!Vhdl1993(line) && Standard(line) == None && !Injects(s, line))
  }

  /** The state after a line that sets the standard as the rewriter writes it. */
  function Quoted(t: State): State {
    if t.inTarget then State(t.level != 0, t.level, true) else t
  }

  /** The second run's state after what the first makes of a line. */
  function Second(s: State, t: State, line: string): State {
    if Unaltered(s, line) then Next(t, line)
    else if Vhdl1993(line) then t
    else if Standard(line).Some? then Quoted(t)
    else Next(Quoted(t), line)
  }

  /** One scan of a file with the states of both runs: wherever the first leaves a line as it is,
      the second, which may take it to be in another place, has nothing to do at it either. */
  predicate Harmless(s: State, t: State, lines: seq<string>)
    decreases |lines|
  {
    lines == [] ||
    ((Unaltered(s, lines[0]) ==> Kept(t, lines[0])) && Harmless(Next(s, lines[0]), Second(s, t, lines[0]), lines[1..]))
  }

  lemma QuotedNext(t: State, parts: Parts)
    requires Sensible(parts)
    ensures Kept(t, Rewritten(parts)) && Next(t, Rewritten(parts)) == Quoted(t)
  {
    hide Standard, Vhdl1993, Header, Net, LoneClose, Rewritten;
    RewrittenAgain(parts);
    RewrittenPlain(parts);
  }

  lemma OneSettled(t: State, line: string)
    ensures (Settled(t, [line]) <==> Kept(t, line)) && After(t, [line]) == Next(t, line)
    ensures Settled(t, []) && After(t, []) == t
  {
    hide Kept, Next;
    assert [line][1..] == [];
  }

  lemma TwoSettled(t: State, a: string, b: string)
    ensures Settled(t, [a, b]) <==> Kept(t, a) && Kept(Next(t, a), b)
    ensures After(t, [a, b]) == Next(Next(t, a), b)
  {
    hide Kept, Next;
    OneSettled(Next(t, a), b);
    assert [a, b][1..] == [b];
  }

  /** One line: what becomes of it is left alone by the second run unless the line itself is not. */
  lemma StepSettled(s: State, t: State, last: Option<string>, line: string)
    ensures After(t, Emit(s, last, line)) == Second(s, t, line)
    ensures Settled(t, Emit(s, last, line)) <==> (Unaltered(s, line) ==> Kept(t, line))
  {
    hide Standard, Vhdl1993, Header, Net, Lead, LoneClose, Rewritten, Indent, Settled, After;
    OneSettled(t, line);
    if Rewrites(s, line) {
      var parts := Standard(line).value;
      StandardSensible(line);
      QuotedNext(t, parts);
      OneSettled(t, Rewritten(parts));
    } else if Injects(s, line) {
      var parts := Parts(Indent(last), ",");
      IndentSensible(last);
      LoneCloseOnly(line);
      QuotedNext(t, parts);
      TwoSettled(t, Rewritten(parts), line);
    }
  }

  lemma {:induction false} HarmlessIff(s: State, t: State, last: Option<string>, lines: seq<string>)
    ensures Settled(t, Run(s, last, lines)) <==> Harmless(s, t, lines)
    decreases |lines|
  {
    hide Emit, Next, Kept, Unaltered, Second;
    if lines == [] {
      assert Run(s, last, lines) == [];
    } else {
      var e := Emit(s, last, lines[0]);
      StepSettled(s, t, last, lines[0]);
      SettledConcat(t, e, Run(Next(s, lines[0]), Last(last, e), lines[1..]));
      HarmlessIff(Next(s, lines[0]), Second(s, t, lines[0]), Last(last, e), lines[1..]);
    }
  }

  /** The exact condition under which processing a file twice is processing it once. */
  lemma IdempotentIff(content: string)
    ensures Processed(Processed(content)) == Processed(content) <==> Harmless(START, START, Split(content))
  {
    hide Harmless, Settled, Run, Split, Join;
    var lines := Split(content);
    SplitProcessed(content);
    SplitProcessed(Processed(content));
    HarmlessIff(START, START, None, lines);
    SettledIff(START, None, Fixed(lines));
  }

  /** Balance is enough: as long as both runs are in the same state the second has nothing to do. */
  lemma {:induction false} BalancedHarmless(s: State, t: State, lines: seq<string>)
    requires Same(s, t) && Balanced(s, lines)
    ensures Harmless(s, t, lines)
    decreases |lines|
  {
    hide Standard, Vhdl1993, Header, Net, LoneClose;
    if lines != [] {
      var line := lines[0];
      if s.inTarget && Vhdl1993(line) {
        Vhdl1993Net(line);
      } else if Injects(s, line) {
        LoneCloseOnly(line);
      }
      BalancedHarmless(Next(s, line), Second(s, t, line), lines[1..]);
    }
  }

  /** Processing a file of balanced lines twice is processing it once, and leaves the lines outside
      its targets alone. */
  lemma ProcessedAgain(content: string)
    requires Balanced(START, Split(content))
    ensures Processed(Processed(content)) == Processed(content)
    ensures Outside(START, Split(Processed(content))) == Outside(START, Split(content))
  {
    IdempotentIff(content);
    BalancedHarmless(START, START, Split(content));
    SplitProcessed(content);
    RunAgain(START, START, None, None, Split(content));
  }

  // ---------------------------------------------------------------- unbalanced files

  /** Balance is not needed: an unbalanced standard can be the last thing that matters. */
  lemma UnbalancedAgain(header: string, unbalanced: string)
    requires Header(header) && Net(header) == 1
    requires Standard(unbalanced).Some? && !Vhdl1993(unbalanced) && Net(unbalanced) == -1
    ensures !Balanced(START, [header, unbalanced]) && Fixed(Fixed([header, unbalanced])) == Fixed([header, unbalanced])
  {
    var lines, s := [header, unbalanced], State(true, 1, false);
    assert Next(START, header) == s && Second(START, START, header) == s && Kept(START, header);
    assert Rewrites(s, unbalanced) && !Unaltered(s, unbalanced);
    hide Next, Second, Kept, Rewrites, Unaltered, Standard, Vhdl1993, Header, Net;
    assert lines[0] == header && lines[1..] == [unbalanced] && [unbalanced][1..] == [];
    assert Harmless(s, s, [unbalanced]);
    HarmlessIff(START, START, None, lines);
    hide Run, Settled;
    SettledIff(START, None, Fixed(lines));
  }

  /** Without balance it need not hold: the second run sees the line after such a standard inside the target,
      and drops one the first run kept. */
  lemma UnbalancedNotAgain(header: string, unbalanced: string, old93: string)
    requires Header(header) && Net(header) == 1
    requires Standard(unbalanced).Some? && !Vhdl1993(unbalanced) && Net(unbalanced) == -1
    requires Vhdl1993(old93) && !Header(old93)
    ensures Fixed(Fixed([header, unbalanced, old93])) != Fixed([header, unbalanced, old93])
  {
    var parts := Standard(unbalanced).value;
    var fixed := Rewritten(parts);
    StandardSensible(unbalanced);
    RewrittenAgain(parts);
    RewrittenPlain(parts);
    hide Standard, Vhdl1993, Net, Header, LoneClose, Rewritten, Run, After;
    var s, t := State(true, 1, false), State(false, 0, true);
    ThreeLines(START, None, header, unbalanced, old93);
    assert Fixed([header, unbalanced, old93]) == [header, fixed, old93] by {
      assert Next(START, header) == s && Emit(START, None, header) == [header];
      assert Next(s, unbalanced) == t && Emit(s, Some(header), unbalanced) == [fixed];
    }
    ThreeLines(START, None, header, fixed, old93);
    assert |Fixed([header, fixed, old93])| == 2 by {
      assert Next(s, fixed) == State(true, 1, true) && Emit(s, Some(header), fixed) == [fixed];
    }
  }

  /** One such file. */
  lemma NotProcessedAgain()
    ensures var text := Join(["vhdl_test" + "(", "standard" + " = " + ("\"" + ")" + "\""),
                               "vhdl1993" + " = " + "True"]);
            Processed(Processed(text)) != Processed(text)
  {
    var lines := ["vhdl_test" + "(", "standard" + " = " + ("\"" + ")" + "\""), "vhdl1993" + " = " + "True"];
    ExampleHeader();
    ExampleStandard();
    Example1993();
    ExampleOneLine();
    hide *;
    UnbalancedNotAgain("vhdl_test" + "(", "standard" + " = " + ("\"" + ")" + "\""), "vhdl1993" + " = " + "True");
    SplitJoin(lines);
    SplitProcessed(Join(lines));
    SplitProcessed(Processed(Join(lines)));
  }

  lemma ExampleOneLine()
    ensures AllOneLine(["vhdl_test" + "(", "standard" + " = " + ("\"" + ")" + "\""), "vhdl1993" + " = " + "True"])
  {
    assert OneLine("vhdl_test" + "(");
    assert OneLine("standard" + " = " + ("\"" + ")" + "\""));
    assert OneLine("vhdl1993" + " = " + "True");
  }

  lemma ThreeLines(s: State, last: Option<string>, a: string, b: string, c: string)
    ensures var l, t := Last(last, Emit(s, last, a)), Next(s, a);
            var m, u := Last(l, Emit(t, l, b)), Next(t, b);
            Run(s, last, [a, b, c]) == Emit(s, last, a) + Emit(t, l, b) + Emit(u, m, c)
  {
    hide Emit, Next;
    var l, t := Last(last, Emit(s, last, a)), Next(s, a);
    var m, u := Last(l, Emit(t, l, b)), Next(t, b);
    assert [a, b, c] == [a] + ([b] + [c]) && [c] + [] == [c];
    RunFront(s, last, a, [b] + [c]);
    RunFront(t, l, b, [c]);
    RunFront(u, m, c, []);
  }

  lemma ExampleHeader()
    ensures Header("vhdl_test" + "(") && Net("vhdl_test" + "(") == 1
  {
    var rule := "vhdl_test";
    HeaderPlain(rule);
    NetFlat(rule);
    hide Net;
    assert HeaderOf("vhdl_test", rule + "(");
  }

  lemma HeaderPlain(rule: string)
    ensures HeaderOf(rule, rule + "(") && Net(rule + "(") == Net(rule) + 1
  {
    assert (rule + "(")[|rule|..] == "(" && "("[1..] == "";
    NetConcat(rule, "(");
  }

  lemma AssignedLine(key: string, value: string)
    requires key != "" && !Blank(key[0]) && value != "" && !Blank(value[0]) && !Blank(value[|value| - 1])
    ensures var line := key + " = " + value;
            TrimLeft(line) == TrimRight(line) == line && Lead(line) == "" && Assigned(key, line) == Some(value)
            && Net(line) == Net(key) + Net(value)
  {
    var line := key + " = " + value;
    assert "" + line == line && line[0] == key[0] && line[|line| - 1] == value[|value| - 1];
    assert TrimRight(line) == line;
    TrimIndented("", line);
    NetFlat(" = ");
    hide *;
    AssignedPlain(key, value);
    NetConcat(key + " = ", value);
    NetConcat(key, " = ");
  }

  lemma AssignedPlain(key: string, value: string)
    requires value != "" && !Blank(value[0])
    ensures Assigned(key, key + " = " + value) == Some(value)
  {
    hide TrimLeft;
    assert (key + " = " + value)[|key|..] == " " + ("= " + value);
    TrimIndented(" ", "= " + value);
    assert ("= " + value)[1..] == " " + value;
    TrimIndented(" ", value);
  }

  lemma QuotedParsed(text: string)
    ensures QuotedComma("\"" + text + "\"") == Some("") && Net("\"" + text + "\"") == Net(text)
  {
    NetConcat("\"" + text, "\"");
    NetConcat("\"", text);
    NetFlat("\"");
  }

  lemma ExampleStandard()
    ensures var line := "standard" + " = " + ("\"" + ")" + "\"");
            !Vhdl1993(line) && Standard(line) == Some(Parts("", "")) && Net(line) == -1
  {
    assert Net(")") == -1 + Net(")"[1..]);
    StandardPlain(")");
  }

  lemma StandardPlain(text: string)
    ensures var line := "standard" + " = " + ("\"" + text + "\"");
            !Vhdl1993(line) && Standard(line) == Some(Parts("", "")) && Net(line) == Net(text)
  {
    hide Net, TrimLeft, TrimRight, Lead, QuotedComma, Assigned;
    var key, value := "standard", "\"" + text + "\"";
    NetFlat(key);
    QuotedParsed(text);
    AssignedLine(key, value);
    NotAssigned(key, value, "vhdl1993");
  }

  lemma NotAssigned(key: string, value: string, other: string)
    requires key != "" && other != "" && key[0] != other[0]
    ensures Assigned(other, key + " = " + value) == None
  {
    assert (key + " = " + value)[0] == key[0];
  }

  lemma Example1993()
    ensures Vhdl1993("vhdl1993" + " = " + "True") && !Header("vhdl1993" + " = " + "True")
  {
    var key := "vhdl1993";
    var line := key + " = " + "True";
    assert line[1] == 'h' && line[4] == '1';
    assert "vivado_library"[1] == 'i' && "vhdl_library"[4] == '_' && "vhdl_test"[4] == '_';
    hide TrimLeft, TrimRight, Lead;
    AssignedLine(key, "True");
  }
}
