/** The script that reports the targets of a build file for which no standard is set, before and
    after the other script has processed the file. */
module BuildCheck {
  import opened Wrappers
  import opened BuildText
  import opened BuildFiles
  import opened BuildPatterns
  import opened BuildTargets
  import opened BuildTwice

  datatype Check = Check(inTarget: bool, level: int, hasStandard: bool, name: string)

  const FRESH := Check(false, 0, false, "")

  function Named(name: string, line: string): string {
    match Name(line) case None => name case Some(n) => n
  }

  function CheckNext(c: Check, line: string): Check {
    if Header(line) then Check(true, Net(line), false, c.name)
    else if !c.inTarget then c
    else
      var level := c.level + Net(line);
      Check(level != 0, level, c.hasStandard || Standard2019(line), Named(c.name, line))
  }

  /** The names a line makes the script report. */
  function Report(c: Check, line: string): seq<string> {
    if !Header(line) && c.inTarget && c.level + Net(line) == 0 && !c.hasStandard && !Standard2019(line)
    then [Named(c.name, line)] else []
  }

  function Missing(c: Check, lines: seq<string>): seq<string>
    decreases |lines|
  {
    if lines == [] then [] else Report(c, lines[0]) + Missing(CheckNext(c, lines[0]), lines[1..])
  }

  function CheckAfter(c: Check, lines: seq<string>): Check
    decreases |lines|
  {
    if lines == [] then c else CheckAfter(CheckNext(c, lines[0]), lines[1..])
  }

  lemma {:induction false} MissingConcat(c: Check, a: seq<string>, b: seq<string>)
    ensures Missing(c, a + b) == Missing(c, a) + Missing(CheckAfter(c, a), b)
    decreases |a|
  {
    hide CheckNext, Report;
    if a == [] {
      assert a + b == b;
    } else {
      assert (a + b)[0] == a[0] && (a + b)[1..] == a[1..] + b;
      MissingConcat(CheckNext(c, a[0]), a[1..], b);
    }
  }

  /** After i lines the state and the names reported are such that the rest completes them. */
  ghost predicate SoFarFound(lines: seq<string>, i: nat, c: Check, missing: seq<string>) {
    i <= |lines| && Missing(FRESH, lines) == missing + Missing(c, lines[i..])
  }

  lemma FoundStep(lines: seq<string>, i: nat, c: Check, missing: seq<string>)
    requires i < |lines| && SoFarFound(lines, i, c, missing)
    ensures SoFarFound(lines, i + 1, CheckNext(c, lines[i]), missing + Report(c, lines[i]))
    ensures missing + [] == missing
  {
    hide CheckNext, Report;
    assert lines[i..][0] == lines[i] && lines[i..][1..] == lines[i + 1..];
    var rest := Missing(CheckNext(c, lines[i]), lines[i + 1..]);
    assert missing + (Report(c, lines[i]) + rest) == missing + Report(c, lines[i]) + rest;
  }

  lemma FoundEnd(lines: seq<string>, c: Check, missing: seq<string>)
    requires SoFarFound(lines, |lines|, c, missing)
    ensures missing == Missing(FRESH, lines)
  {
    assert lines[|lines|..] == [] && missing + [] == missing;
  }

  // ---------------------------------------------------------------- what the state means

  /** Before line i the state is that of the target open there, if there is one, and of the last name. */
  ghost predicate Describes(lines: seq<string>, i: nat, c: Check)
    requires i <= |lines|
  {
    && c.inTarget == SeenInside(lines, i) && LastName(lines, i, c.name)
    && (c.inTarget ==> exists h | 0 <= h < i :: SeenOpen(lines, h, i) && InTarget(lines, h, i, c))
  }

  ghost predicate InTarget(lines: seq<string>, h: nat, i: nat, c: Check)
    requires h < i <= |lines|
  {
    c.level == Depth(lines, h, i) && c.hasStandard == Has2019(lines, h, i)
  }

  lemma Has2019Next(lines: seq<string>, h: nat, i: nat)
    requires h <= i < |lines|
    ensures Has2019(lines, h, i + 1) <==> Has2019(lines, h, i) || (h < i && Standard2019Line(lines[i]))
    ensures !Has2019(lines, i, i)
  {
    hide Standard2019Line;
  }

  lemma NamedNext(lines: seq<string>, i: nat, name: string)
    requires i < |lines| && LastName(lines, i, name)
    ensures LastName(lines, i + 1,
                     if SeenInside(lines, i) && !HeaderLine(lines[i]) then Named(name, lines[i]) else name)
  {
    hide Name, NameLine, HeaderLine, SeenInside, LastName;
    var line := lines[i];
    forall n: string ensures NameLine(line, n) <==> Name(line) == Some(n) {
      NameIff(line, n);
    }
    NameNext(lines, i, name, if SeenInside(lines, i) && !HeaderLine(line) then Named(name, line) else name);
  }

  /** A header, or a line outside targets. */
  lemma StepOutside(lines: seq<string>, i: nat, c: Check)
    requires i < |lines| && Describes(lines, i, c) && (Header(lines[i]) || !c.inTarget)
    ensures Describes(lines, i + 1, CheckNext(c, lines[i])) && Reports(lines, i, Report(c, lines[i]))
  {
    HeaderIff(lines[i]);
    SeenNext(lines, i);
    OneDeeper(lines, i, i);
    Has2019Next(lines, i, i);
    NamedNext(lines, i, c.name);
    hide Header, HeaderLine, Name, Net, Has2019, Depth, SeenOpen, LastName, Named;
    if Header(lines[i]) {
      assert SeenOpen(lines, i, i + 1) && InTarget(lines, i, i + 1, CheckNext(c, lines[i]));
    }
  }

  /** What the line makes of a target that is open. */
  lemma TargetNext(lines: seq<string>, h: nat, i: nat, c: Check)
    requires h < i < |lines| && !Header(lines[i]) && c.inTarget
    requires SeenOpen(lines, h, i) && InTarget(lines, h, i, c)
    ensures var next := CheckNext(c, lines[i]);
            next.level == Depth(lines, h, i + 1) && next.hasStandard == Has2019(lines, h, i + 1)
            && next.inTarget == SeenInside(lines, i + 1) && (next.inTarget ==> SeenOpen(lines, h, i + 1))
  {
    HeaderIff(lines[i]);
    SeenNext(lines, i);
    OneDeeper(lines, h, i);
    Has2019Next(lines, h, i);
    Standard2019Iff(lines[i]);
    hide Header, HeaderLine, Name, Net, Has2019, Depth, SeenOpen, SeenInside, Standard2019, Standard2019Line;
  }

  /** A line of a target. */
  lemma StepInside(lines: seq<string>, h: nat, i: nat, c: Check)
    requires h < i < |lines| && !Header(lines[i]) && c.inTarget
    requires SeenOpen(lines, h, i) && InTarget(lines, h, i, c) && LastName(lines, i, c.name)
    ensures Describes(lines, i + 1, CheckNext(c, lines[i]))
  {
    HeaderIff(lines[i]);
    TargetNext(lines, h, i, c);
    NamedNext(lines, i, c.name);
    assert SeenInside(lines, i);
    hide Header, HeaderLine, Name, Net, Has2019, Depth, SeenOpen, LastName, Standard2019, Named, SeenInside;
    if SeenInside(lines, i + 1) {
      assert SeenOpen(lines, h, i + 1) && InTarget(lines, h, i + 1, CheckNext(c, lines[i]));
    }
  }

  lemma ReportInside(lines: seq<string>, h: nat, i: nat, c: Check)
    requires h < i < |lines| && !Header(lines[i]) && c.inTarget
    requires SeenOpen(lines, h, i) && InTarget(lines, h, i, c) && LastName(lines, i, c.name)
    ensures Reports(lines, i, Report(c, lines[i]))
  {
    HeaderIff(lines[i]);
    TargetNext(lines, h, i, c);
    NamedNext(lines, i, c.name);
    assert SeenInside(lines, i);
    hide Header, HeaderLine, Name, Net, Has2019, Depth, SeenOpen, LastName, Standard2019, Named, SeenInside;
    var next := CheckNext(c, lines[i]);
    if next.level == 0 && !next.hasStandard {
      assert Lacks(lines, h, i);
    } else if h' :| 0 <= h' < i && Lacks(lines, h', i) {
      SeenOnce(lines, h, h', i);
      assert false;
    }
  }

  lemma MissingIs(lines: seq<string>)
    ensures ReportedAs(lines, Missing(FRESH, lines))
  {
    var c, missing, reports: seq<seq<string>> := FRESH, [], [];
    assert SoFarFound(lines, 0, c, missing) && Describes(lines, 0, c);
    assert AllReports(lines, reports) && Flat(reports) == missing;
    hide SoFarFound, Describes, InTarget, SeenOpen, AllReports, Flat, Reports, Report, CheckNext, Missing, LastName;
    for i := 0 to |lines|
      invariant |reports| == i && SoFarFound(lines, i, c, missing) && Describes(lines, i, c)
      invariant AllReports(lines, reports) && missing == Flat(reports)
    {
      FoundStep(lines, i, c, missing);
      StepDescribed(lines, i, c);
      ReportsMore(lines, reports, Report(c, lines[i]));
      reports, missing := reports + [Report(c, lines[i])], missing + Report(c, lines[i]);
      c := CheckNext(c, lines[i]);
    }
    FoundEnd(lines, c, missing);
  }

  lemma StepDescribed(lines: seq<string>, i: nat, c: Check)
    requires i < |lines| && Describes(lines, i, c)
    ensures Describes(lines, i + 1, CheckNext(c, lines[i])) && Reports(lines, i, Report(c, lines[i]))
  {
    if Header(lines[i]) || !c.inTarget {
      StepOutside(lines, i, c);
    } else {
      var h :| 0 <= h < i && SeenOpen(lines, h, i) && InTarget(lines, h, i, c);
      hide *;
      StepInside(lines, h, i, c);
      ReportInside(lines, h, i, c);
    }
  }

  // ---------------------------------------------------------------- the script

  /** A name is reported at each line that closes a target without the standard. */
  method ReportMissing(content: string) returns (missing: seq<string>)
    ensures missing == Missing(FRESH, Split(content))
    ensures ReportedAs(Split(content), missing)
  {
    MissingIs(Split(content));
    hide ReportedAs;
    missing := [];
    var lines := Split(content);
    var inTarget, name, hasStandard, level := false, "", false, 0;
    assert SoFarFound(lines, 0, FRESH, missing);
    hide SoFarFound, Header, Net, Name, Standard2019, Split;
    for i := 0 to |lines|
      invariant SoFarFound(lines, i, Check(inTarget, level, hasStandard, name), missing)
    {
      FoundStep(lines, i, Check(inTarget, level, hasStandard, name), missing);
      var line := lines[i];
      if Header(line) {
        inTarget := true;
        level := Net(line);
        hasStandard := false;
        continue;
      }
      if inTarget {
        level := level + Net(line);
        var found := Name(line);
        if found.Some? {
          name := found.value;
        }
        if Standard2019(line) {
          hasStandard := true;
        }
        if level == 0 {
          if !hasStandard {
            missing := missing + [name];
          }
          inTarget := false;
        }
      }
    }
    FoundEnd(lines, Check(inTarget, level, hasStandard, name), missing);
  }

  // ---------------------------------------------------------------- after processing

  /** The validator's state after a line that sets the standard as the rewriter writes it. */
  function CheckQuoted(c: Check): Check {
    if c.inTarget then Check(c.level != 0, c.level, true, c.name) else c
  }

  /** Where the validator is after what the rewriter makes of a line. */
  function CheckSecond(s: State, c: Check, line: string): Check {
    if Unaltered(s, line) then CheckNext(c, line)
    else if Vhdl1993(line) then c
    else if Standard(line).Some? then CheckQuoted(c)
    else CheckNext(CheckQuoted(c), line)
  }

  /** What it reports there: nothing at a line dropped, rewritten or put in. */
  function ReportSecond(s: State, c: Check, line: string): seq<string> {
    if Unaltered(s, line) then Report(c, line)
    else if Vhdl1993(line) || Standard(line).Some? then []
    else Report(CheckQuoted(c), line)
  }

  /** One scan of a file with the states of both scripts: the names reported once it is processed. */
  function Reported(s: State, c: Check, lines: seq<string>): seq<string>
    decreases |lines|
  {
    if lines == [] then []
    else ReportSecond(s, c, lines[0]) + Reported(Next(s, lines[0]), CheckSecond(s, c, lines[0]), lines[1..])
  }

  lemma QuotedChecked(c: Check, parts: Parts)
    requires Sensible(parts)
    ensures CheckNext(c, Rewritten(parts)) == CheckQuoted(c) && Report(c, Rewritten(parts)) == []
  {
    hide Standard, Vhdl1993, Header, Net, Rewritten;
    RewrittenAgain(parts);
    RewrittenPlain(parts);
  }

  lemma OneChecked(c: Check, line: string)
    ensures Missing(c, [line]) == Report(c, line) && CheckAfter(c, [line]) == CheckNext(c, line)
    ensures Missing(c, []) == [] && CheckAfter(c, []) == c
  {
    hide CheckNext, Report;
    assert [line][1..] == [];
  }

  lemma TwoChecked(c: Check, a: string, b: string)
    ensures Missing(c, [a, b]) == Report(c, a) + Report(CheckNext(c, a), b)
    ensures CheckAfter(c, [a, b]) == CheckNext(CheckNext(c, a), b)
  {
    hide CheckNext, Report;
    OneChecked(CheckNext(c, a), b);
    assert [a, b][1..] == [b];
  }

  lemma StepReported(s: State, c: Check, last: Option<string>, line: string)
    ensures CheckAfter(c, Emit(s, last, line)) == CheckSecond(s, c, line)
    ensures Missing(c, Emit(s, last, line)) == ReportSecond(s, c, line)
  {
    hide Standard, Vhdl1993, Header, Net, Lead, LoneClose, Rewritten, Indent, Missing, CheckAfter, CheckNext, Report;
    OneChecked(c, line);
    if Rewrites(s, line) {
      StandardSensible(line);
      QuotedChecked(c, Standard(line).value);
      OneChecked(c, Rewritten(Standard(line).value));
    } else if Injects(s, line) {
      IndentSensible(last);
      QuotedChecked(c, Parts(Indent(last), ","));
      TwoChecked(c, Rewritten(Parts(Indent(last), ",")), line);
    }
  }

  lemma {:induction false} RunReported(s: State, c: Check, last: Option<string>, lines: seq<string>)
    ensures Missing(c, Run(s, last, lines)) == Reported(s, c, lines)
    decreases |lines|
  {
    hide Emit, Next, CheckSecond, ReportSecond;
    if lines == [] {
      assert Run(s, last, lines) == [];
    } else {
      var e := Emit(s, last, lines[0]);
      StepReported(s, c, last, lines[0]);
      MissingConcat(c, e, Run(Next(s, lines[0]), Last(last, e), lines[1..]));
      RunReported(Next(s, lines[0]), CheckSecond(s, c, lines[0]), Last(last, e), lines[1..]);
    }
  }

  /** Of every processed file exactly the names found by the scan are reported. */
  lemma ProcessedReported(content: string)
    ensures Missing(FRESH, Split(Processed(content))) == Reported(START, FRESH, Split(content))
  {
    SplitProcessed(content);
    RunReported(START, FRESH, None, Split(content));
  }

  // ---------------------------------------------------------------- files the two scripts read alike

  /** No line inside an open target opens another. */
  predicate Unnested(s: State, lines: seq<string>)
    decreases |lines|
  {
    lines == [] || ((s.inTarget ==> !Header(lines[0])) && Unnested(Next(s, lines[0]), lines[1..]))
  }

  /** The line closes the target the rewriter is in. */
  predicate Closes(s: State, line: string) {
    s.inTarget && !Next(s, line).inTarget
  }

  /** Whether the target now open has a line that either script takes for its standard. */
  predicate Sets(sets: bool, line: string) {
    sets || Standard2019(line) || Standard(line).Some?
  }

  /** The targets processing cannot help: those without any line that sets a standard, closed by
      something else than a parenthesis alone on its line. */
  function Unhelped(s: State, sets: bool, name: string, lines: seq<string>): seq<string>
    decreases |lines|
  {
    if lines == [] then []
    else
      var line, t, rest := lines[0], Next(s, lines[0]), lines[1..];
      if !s.inTarget then Unhelped(t, !Header(line) && sets, name, rest)
      else if Vhdl1993(line) then Unhelped(t, sets, name, rest)
      else
        (if Closes(s, line) && !Sets(sets, line) && !LoneClose(line) then [Named(name, line)] else [])
        + Unhelped(t, Sets(sets, line), Named(name, line), rest)
  }

  /** Every line that closes a target is a parenthesis alone. */
  predicate ClosesAlone(s: State, lines: seq<string>)
    decreases |lines|
  {
    lines == [] || ((Closes(s, lines[0]) ==> LoneClose(lines[0])) && ClosesAlone(Next(s, lines[0]), lines[1..]))
  }

  lemma {:induction false} NoneUnhelped(s: State, sets: bool, name: string, lines: seq<string>)
    requires ClosesAlone(s, lines)
    ensures Unhelped(s, sets, name, lines) == []
    decreases |lines|
  {
    hide Next, LoneClose, Standard, Standard2019, Name, Vhdl1993, Header;
    if lines != [] {
      var line, t, rest := lines[0], Next(s, lines[0]), lines[1..];
      NoneUnhelped(t, !Header(line) && sets, name, rest);
      NoneUnhelped(t, sets, name, rest);
      NoneUnhelped(t, Sets(sets, line), Named(name, line), rest);
    }
  }

  /** Where the validator is on what has become of the lines so far. */
  predicate Follows(s: State, sets: bool, name: string, c: Check) {
    c.inTarget == s.inTarget && c.name == name
    && (s.inTarget ==> c.level == s.level && c.hasStandard == sets && (s.hasStandard ==> sets))
  }

  lemma StandardNotName(line: string)
    requires Standard(line).Some?
    ensures Name(line) == None && !Header(line)
  {
    var t := TrimLeft(line);
    LeadTrim(line);
    assert "standard" <= t && t[0] == "standard"[0] == 's' && "name"[0] == 'n';
    assert line[0] == 's' || Blank(line[0]);
    assert "vivado_library"[0] == 'v' && "vhdl_library"[0] == 'v' && "vhdl_test"[0] == 'v';
  }

  lemma StepChecked(s: State, sets: bool, name: string, c: Check, line: string)
    requires Follows(s, sets, name, c)
    requires Rewrites(s, line) ==> Net(line) == 0
    requires s.inTarget ==> !Header(line)
    ensures var dropped := s.inTarget && Vhdl1993(line);
            var sets' := if !s.inTarget then !Header(line) && sets else if dropped then sets else Sets(sets, line);
            var name' := if !s.inTarget || dropped then name else Named(name, line);
            Follows(Next(s, line), sets', name', CheckSecond(s, c, line))
            && ReportSecond(s, c, line) == if s.inTarget && !dropped && Closes(s, line) && !Sets(sets, line)
              && !LoneClose(line)
                                           then [Named(name, line)] else []
  {
    hide Standard, Vhdl1993, Header, Net, LoneClose, Name, Standard2019;
    if s.inTarget && Vhdl1993(line) {
      Vhdl1993Net(line);
    } else if Rewrites(s, line) {
      StandardNotName(line);
    } else if Injects(s, line) {
      LoneCloseOnly(line);
    }
  }

  /** Where both scripts see the same targets, the scan finds just those that could not be helped. */
  lemma {:induction false} ReportedUnhelped(s: State, sets: bool, name: string, c: Check, lines: seq<string>)
    requires Follows(s, sets, name, c) && Balanced(s, lines) && Unnested(s, lines)
    ensures Reported(s, c, lines) == Unhelped(s, sets, name, lines)
    decreases |lines|
  {
    hide Next, Follows, Rewrites, Named, Sets, Closes, Header, Vhdl1993, LoneClose, CheckSecond, ReportSecond;
    if lines != [] {
      var line := lines[0];
      StepChecked(s, sets, name, c, line);
      var dropped := s.inTarget && Vhdl1993(line);
      var sets' := if !s.inTarget then !Header(line) && sets else if dropped then sets else Sets(sets, line);
      var name' := if !s.inTarget || dropped then name else Named(name, line);
      ReportedUnhelped(Next(s, line), sets', name', CheckSecond(s, c, line), lines[1..]);
    }
  }

  lemma ProcessedChecked(content: string)
    requires Balanced(START, Split(content)) && Unnested(START, Split(content))
    ensures Missing(FRESH, Split(Processed(content))) == Unhelped(START, false, "", Split(content))
  {
    ProcessedReported(content);
    ReportedUnhelped(START, false, "", FRESH, Split(content));
  }

  /** Nothing is reported of a processed file whose targets all close with a parenthesis alone. */
  lemma NothingReported(content: string)
    requires Balanced(START, Split(content)) && Unnested(START, Split(content)) && ClosesAlone(START, Split(content))
    ensures Missing(FRESH, Split(Processed(content))) == []
  {
    ProcessedChecked(content);
    NoneUnhelped(START, false, "", Split(content));
  }
}
