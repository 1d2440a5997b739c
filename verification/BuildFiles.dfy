/** The script that sets the VHDL standard of every target in a build file. */
module BuildFiles {
  import opened Wrappers
  import opened BuildPatterns
  import opened BuildTargets
  import opened BuildText

  // ---------------------------------------------------------------- the rewriter

  datatype State = State(inTarget: bool, level: int, hasStandard: bool)

  const START := State(false, 0, false)

  predicate Rewrites(s: State, line: string) {
    s.inTarget && !Vhdl1993(line) && Standard(line).Some?
  }

  function Next(s: State, line: string): State {
    if !s.inTarget then if Header(line) then State(true, Net(line), false) else s
    else
      var level := s.level + Net(line);
      if Vhdl1993(line) then State(true, level, s.hasStandard)
      else State(level != 0, level, s.hasStandard || Standard(line).Some?)
  }

  /** The indentation for a line after the last one put out. */
  function Indent(last: Option<string>): string {
    if last.Some? && " " <= last.value then Lead(last.value) else "    "
  }

  function Emit(s: State, last: Option<string>, line: string): seq<string> {
    if !s.inTarget then [line]
    else if Vhdl1993(line) then []
    else if Standard(line).Some? then [Rewritten(Standard(line).value)]
    else if s.level + Net(line) == 0 && !s.hasStandard && LoneClose(line) then
      [Rewritten(Parts(Indent(last), ",")), line]
    else [line]
  }

  function Last(last: Option<string>, lines: seq<string>): Option<string> {
    if lines == [] then last else Some(lines[|lines| - 1])
  }

  function Run(s: State, last: Option<string>, lines: seq<string>): seq<string>
    decreases |lines|
  {
    if lines == [] then []
    else Emit(s, last, lines[0]) + Run(Next(s, lines[0]), Last(last, Emit(s, last, lines[0])), lines[1..])
  }

  function After(s: State, lines: seq<string>): State
    decreases |lines|
  {
    if lines == [] then s else After(Next(s, lines[0]), lines[1..])
  }

  /** What becomes of the lines of a file. */
  function Fixed(lines: seq<string>): (out: seq<string>)
    requires lines != []
    ensures out != []
  {
    Run(START, None, lines)
  }

  lemma {:induction false} RunConcat(s: State, last: Option<string>, a: seq<string>, b: seq<string>)
    ensures Run(s, last, a + b) == Run(s, last, a) + Run(After(s, a), Last(last, Run(s, last, a)), b)
    decreases |a|
  {
    if a == [] {
      assert a + b == b;
    } else {
      var e, more := Emit(s, last, a[0]), a[1..];
      var t, end := Next(s, a[0]), Last(last, e);
      assert [a[0]] + more == a && [a[0]] + (more + b) == a + b;
      RunFront(s, last, a[0], more);
      RunFront(s, last, a[0], more + b);
      RunConcat(t, end, more, b);
      LastConcat(last, e, Run(t, end, more));
      hide *;
      assert e + (Run(t, end, more) + Run(After(t, more), Last(end, Run(t, end, more)), b))
          == e + Run(t, end, more) + Run(After(t, more), Last(end, Run(t, end, more)), b);
    }
  }

  lemma LastConcat(last: Option<string>, a: seq<string>, b: seq<string>)
    ensures Last(Last(last, a), b) == Last(last, a + b)
  {
  }

  lemma RunFront(s: State, last: Option<string>, line: string, lines: seq<string>)
    ensures Run(s, last, [line] + lines)
            == Emit(s, last, line) + Run(Next(s, line), Last(last, Emit(s, last, line)), lines)
    ensures After(s, [line] + lines) == After(Next(s, line), lines)
  {
    hide Emit, Next;
    assert ([line] + lines)[1..] == lines;
  }

  /** After i lines the state and the lines put out are such that the rest completes them. */
  ghost predicate SoFar(lines: seq<string>, i: nat, s: State, out: seq<string>) {
    lines != [] && i <= |lines| && Fixed(lines) == out + Run(s, Last(None, out), lines[i..])
  }

  lemma SoFarStep(lines: seq<string>, i: nat, s: State, out: seq<string>)
    requires i < |lines| && SoFar(lines, i, s, out)
    ensures SoFar(lines, i + 1, Next(s, lines[i]), out + Emit(s, Last(None, out), lines[i]))
  {
    hide Emit, Next;
    assert lines[i..] == [lines[i]] + lines[i + 1..];
    RunFront(s, Last(None, out), lines[i], lines[i + 1..]);
  }

  lemma SoFarEnd(lines: seq<string>, s: State, out: seq<string>)
    requires SoFar(lines, |lines|, s, out)
    ensures out == Fixed(lines)
  {
    assert lines[|lines|..] == [] && out + [] == out;
  }

  // ---------------------------------------------------------------- what the state means

  /** Before line i the state is that of the target open there, if there is one. */
  ghost predicate Describes(lines: seq<string>, i: nat, s: State)
    requires i <= |lines|
  {
    && s.inTarget == Inside(lines, i)
    && (s.inTarget ==> exists h | 0 <= h < i :: OpenAt(lines, h, i) && InTarget(lines, h, i, s))
  }

  ghost predicate InTarget(lines: seq<string>, h: nat, i: nat, s: State)
    requires h < i <= |lines|
  {
    s.level == Depth(lines, h, i) && s.hasStandard == HasStandard(lines, h, i)
  }

  lemma OneDeeper(lines: seq<string>, h: nat, i: nat)
    requires h <= i < |lines|
    ensures Depth(lines, h, i + 1) == Depth(lines, h, i) + Net(lines[i])
  {
    NetIs(lines[i]);
  }

  lemma StandardNext(lines: seq<string>, h: nat, i: nat)
    requires h <= i < |lines|
    ensures HasStandard(lines, h, i + 1)
            <==> HasStandard(lines, h, i) || (h < i && SetsStandard(lines[i]) && !Vhdl1993Line(lines[i]))
  {
    hide SetsStandard, Vhdl1993Line;
  }

  lemma SetsStandardIff(line: string)
    ensures Standard(line).Some? <==> SetsStandard(line)
  {
    hide Standard, StandardLine;
    if Standard(line).Some? {
      StandardIff(line, Standard(line).value.indent, Standard(line).value.comma);
    }
    if indent: string, comma: string :| StandardLine(line, indent, comma) {
      StandardIff(line, indent, comma);
    }
  }

  lemma IndentGuessed(last: Option<string>)
    ensures Guessed(last, Indent(last))
  {
    if last.Some? && " " <= last.value {
      var s := last.value;
      LeadTrim(s);
      TrimLeftStarts(s);
      WhiteIsBlank(Lead(s));
      if TrimLeft(s) != "" {
        WhiteIsBlank([TrimLeft(s)[0]]);
      }
      assert s == Lead(s) + TrimLeft(s);
    }
  }

  /** Outside targets. */
  lemma StepOutside(lines: seq<string>, i: nat, s: State)
    requires i < |lines| && Describes(lines, i, s) && !s.inTarget
    ensures Describes(lines, i + 1, Next(s, lines[i]))
  {
    HeaderIff(lines[i]);
    OpensNext(lines, i);
    OneDeeper(lines, i, i);
    StandardNext(lines, i, i);
    hide Header, HeaderLine, OpenAt, Inside, Net, HasStandard;
    assert !HasStandard(lines, i, i) by {
      NoneYet(lines, i);
    }
  }

  lemma NoneYet(lines: seq<string>, i: nat)
    requires i <= |lines|
    ensures !HasStandard(lines, i, i)
  {
  }

  /** Inside a target. */
  lemma StepInside(lines: seq<string>, h: nat, i: nat, s: State)
    requires h < i < |lines| && s.inTarget && OpenAt(lines, h, i) && InTarget(lines, h, i, s)
    ensures Describes(lines, i + 1, Next(s, lines[i]))
  {
    var line := lines[i];
    OpenNext(lines, h, i);
    OneDeeper(lines, h, i);
    StandardNext(lines, h, i);
    SetsStandardIff(line);
    Vhdl1993Iff(line);
    hide Header, OpenAt, Inside, Net, HasStandard, SetsStandard, Vhdl1993Line, Vhdl1993, Standard, Depth;
    if Next(s, line).inTarget {
      assert OpenAt(lines, h, i + 1) && InTarget(lines, h, i + 1, Next(s, line));
    }
  }

  lemma RewritesStandard(line: string)
    requires Standard(line).Some?
    ensures exists indent: string, comma: string ::
              SetTo2019(line, indent, comma, [Rewritten(Standard(line).value)])
  {
    var parts := Standard(line).value;
    StandardIff(line, parts.indent, parts.comma);
    hide Standard, StandardLine;
    assert SetTo2019(line, parts.indent, parts.comma, [Rewritten(parts)]);
  }

  lemma PutsStandardIn(line: string, last: Option<string>)
    ensures exists indent: string :: PutsIn(last, line, indent, [Rewritten(Parts(Indent(last), ",")), line])
  {
    IndentGuessed(last);
    hide Guessed, Indent;
    assert PutsIn(last, line, Indent(last), [Rewritten(Parts(Indent(last), ",")), line]);
  }

  lemma EmitPutsOut(lines: seq<string>, h: nat, i: nat, s: State, last: Option<string>)
    requires h < i < |lines| && s.inTarget && InTarget(lines, h, i, s)
    ensures PutOut(lines, h, i, last, Emit(s, last, lines[i]))
  {
    hide Net, HasStandard, SetsStandard, Vhdl1993Line, Vhdl1993, Standard, Depth, LoneClose, CloseLine, SetTo2019;
    hide PutsIn, Rewritten, Indent;
    var line := lines[i];
    OneDeeper(lines, h, i);
    SetsStandardIff(line);
    Vhdl1993Iff(line);
    LoneCloseIff(line);
    PutsStandardIn(line, last);
    if Standard(line).Some? {
      RewritesStandard(line);
    }
  }

  /** One line: what is put out for it is what its place in the file calls for. */
  lemma StepDescribed(lines: seq<string>, i: nat, s: State, last: Option<string>)
    requires i < |lines| && Describes(lines, i, s)
    ensures Describes(lines, i + 1, Next(s, lines[i])) && Becomes(lines, i, last, Emit(s, last, lines[i]))
  {
    hide OpenAt, Inside, InTarget, PutOut, Next;
    if s.inTarget {
      var h :| 0 <= h < i && OpenAt(lines, h, i) && InTarget(lines, h, i, s);
      StepInside(lines, h, i, s);
      EmitPutsOut(lines, h, i, s, last);
    } else {
      StepOutside(lines, i, s);
    }
  }

  lemma FixedIs(lines: seq<string>)
    requires lines != []
    ensures FixedAs(lines, Fixed(lines))
  {
    var s, out, pieces: seq<seq<string>> := START, [], [];
    assert lines[0..] == lines;
    assert SoFar(lines, 0, s, out) && Describes(lines, 0, s) && Pieces(lines, pieces) && Flat(pieces) == out;
    hide SoFar, Describes, Pieces, Flat, Becomes, Emit, Next, Fixed;
    for i := 0 to |lines|
      invariant |pieces| == i && SoFar(lines, i, s, out) && Describes(lines, i, s)
      invariant Pieces(lines, pieces) && out == Flat(pieces)
    {
      var piece := Emit(s, Last(None, out), lines[i]);
      SoFarStep(lines, i, s, out);
      StepDescribed(lines, i, s, Last(None, out));
      PiecesMore(lines, pieces, piece);
      s, out, pieces := Next(s, lines[i]), out + piece, pieces + [piece];
    }
    SoFarEnd(lines, s, out);
  }

  lemma ProcessedIs(content: string)
    ensures FixedAs(Split(content), Split(Join(Fixed(Split(content)))))
  {
    FixedIs(Split(content));
    SplitProcessed(content);
    hide Split, Join, FixedAs, Fixed;
  }

  // ---------------------------------------------------------------- the script

  /** Every line becomes what its place in the file calls for. */
  method ProcessFile(content: string) returns (result: string)
    ensures result == Join(Fixed(Split(content)))
    ensures FixedAs(Split(content), Split(result))
  {
    ProcessedIs(content);
    hide FixedAs, Split, Join;
    var lines := Split(content);
    var out: seq<string> := [];
    var inTarget, level, hasStandard := false, 0, false;
    for i := 0 to |lines|
      invariant SoFar(lines, i, State(inTarget, level, hasStandard), out)
    {
      var line := lines[i];
      SoFarStep(lines, i, State(inTarget, level, hasStandard), out);
      hide SoFar, Standard, Vhdl1993, Header, Net, Lead, Strip;
      var stripped := Strip(line);
      if Header(line) && !inTarget {
        inTarget := true;
        level := Net(line);
        out := out + [line];
        hasStandard := false;
        continue;
      }
      if inTarget {
        level := level + Net(line);
        if Vhdl1993(line) {
          assert out + [] == out;
          continue;
        }
        var parts := Standard(line);
        if parts.Some? {
          hasStandard := true;
          out := out + [Rewritten(parts.value)];
          if level == 0 {
            inTarget := false;
          }
          continue;
        }
        if level == 0 {
          if !hasStandard {
            var indent := "    ";
            if out != [] && " " <= out[|out| - 1] {
              indent := Lead(out[|out| - 1]);
            }
            if stripped == ")" {
              var added := indent + "standard = \"2019\"" + ",";
              assert out + [added] + [line] == out + [added, line];
              out := out + [added];
              out := out + [line];
            } else {
              out := out + [line];
            }
          } else {
            out := out + [line];
          }
          inTarget := false;
        } else {
          out := out + [line];
        }
      } else {
        out := out + [line];
      }
    }
    SoFarEnd(lines, State(inTarget, level, hasStandard), out);
    result := Join(out);
  }

  lemma IndentSensible(last: Option<string>)
    ensures Sensible(Parts(Indent(last), ","))
  {
    if last.Some? {
      LeadTrim(last.value);
    }
  }

  // ---------------------------------------------------------------- whole files

  function Processed(content: string): string {
    Join(Fixed(Split(content)))
  }

  lemma IndentOneLine(last: Option<string>)
    requires last.Some? ==> OneLine(last.value)
    ensures OneLine(Indent(last))
  {
    if last.Some? {
      LeadTrim(last.value);
    }
  }

  lemma RewrittenOneLine(parts: Parts)
    requires OneLine(parts.indent) && OneLine(parts.comma)
    ensures OneLine(Rewritten(parts))
  {
  }

  lemma EmitOneLine(s: State, last: Option<string>, line: string)
    requires OneLine(line) && (last.Some? ==> OneLine(last.value))
    ensures AllOneLine(Emit(s, last, line))
  {
    hide Standard, Vhdl1993, Net, LoneClose, Header, Lead, Rewritten, OneLine, Indent;
    if Standard(line).Some? {
      StandardIndent(line);
      RewrittenOneLine(Standard(line).value);
    }
    IndentOneLine(last);
    CommaOneLine();
    RewrittenOneLine(Parts(Indent(last), ","));
  }

  lemma CommaOneLine()
    ensures OneLine(",")
  {
  }

  lemma StandardIndent(line: string)
    requires Standard(line).Some? && OneLine(line)
    ensures OneLine(Standard(line).value.indent) && OneLine(Standard(line).value.comma)
  {
    LeadTrim(line);
  }

  lemma {:induction false} RunOneLine(s: State, last: Option<string>, lines: seq<string>)
    requires AllOneLine(lines) && (last.Some? ==> OneLine(last.value))
    ensures AllOneLine(Run(s, last, lines))
    decreases |lines|
  {
    hide Emit, Next;
    if lines != [] {
      EmitOneLine(s, last, lines[0]);
      RunOneLine(Next(s, lines[0]), Last(last, Emit(s, last, lines[0])), lines[1..]);
    }
  }

  /** The lines of a processed file are those put out. */
  lemma SplitProcessed(content: string)
    ensures Split(Processed(content)) == Fixed(Split(content))
  {
    SplitOneLine(content);
    RunOneLine(START, None, Split(content));
    SplitJoin(Fixed(Split(content)));
  }
}
