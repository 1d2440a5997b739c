/** The targets of a build file and what the rewriter makes of each line, told by where the line is
    in the file. */
module BuildTargets {
  import opened Wrappers
  import opened BuildPatterns

  // ---------------------------------------------------------------- targets

  /** The parentheses opened and not closed in lines h to i - 1. */
  ghost function Depth(lines: seq<string>, h: nat, i: nat): int
    requires h <= i <= |lines|
    decreases i
  {
    if h == i then 0
    else Depth(lines, h, i - 1) + multiset(lines[i - 1])['('] as int - multiset(lines[i - 1])[')'] as int
  }

  /** The target whose header is line h is still open before line i: no line after the header has closed
      it. A line that sets vhdl1993 closes nothing. */
  ghost predicate OpenAt(lines: seq<string>, h: nat, i: nat)
    requires h < i <= |lines|
    decreases i, 0
  {
    && !Inside(lines, h) && HeaderLine(lines[h])
    && forall j | h < j < i :: StaysOpen(lines, h, j)
  }

  ghost predicate StaysOpen(lines: seq<string>, h: nat, j: nat)
    requires h <= j < |lines|
  {
    Depth(lines, h, j + 1) != 0 || Vhdl1993Line(lines[j])
  }

  /** Some target is open before line i. */
  ghost predicate Inside(lines: seq<string>, i: nat)
    requires i <= |lines|
    decreases i, 1
  {
    exists h | 0 <= h < i :: OpenAt(lines, h, i)
  }

  lemma OpenPart(lines: seq<string>, h: nat, j: nat, i: nat)
    requires h < j <= i <= |lines| && OpenAt(lines, h, i)
    ensures OpenAt(lines, h, j)
  {
    hide StaysOpen;
  }

  lemma OpenOnce(lines: seq<string>, h: nat, h': nat, i: nat)
    requires h < i <= |lines| && h' < i && OpenAt(lines, h, i) && OpenAt(lines, h', i)
    ensures h == h'
  {
    hide StaysOpen;
    if h < h' {
      OpenPart(lines, h, h', i);
    } else if h' < h {
      OpenPart(lines, h', h, i);
    }
  }

  /** One more line: the target stays open, is closed, or is a new one. */
  lemma OpenNext(lines: seq<string>, h: nat, i: nat)
    requires h < i < |lines| && OpenAt(lines, h, i)
    ensures OpenAt(lines, h, i + 1) <==> StaysOpen(lines, h, i)
    ensures Inside(lines, i + 1) <==> StaysOpen(lines, h, i)
  {
    hide StaysOpen;
    var next := i + 1;
    assert Inside(lines, i);
    forall h' | 0 <= h' < next && OpenAt(lines, h', next) ensures h' == h {
      if h' < i {
        OpenPart(lines, h', i, next);
        OpenOnce(lines, h, h', i);
      }
    }
  }

  lemma OpensNext(lines: seq<string>, i: nat)
    requires i < |lines| && !Inside(lines, i)
    ensures OpenAt(lines, i, i + 1) <==> HeaderLine(lines[i])
    ensures Inside(lines, i + 1) <==> HeaderLine(lines[i])
  {
    hide StaysOpen, HeaderLine;
    var next := i + 1;
    forall h | 0 <= h < next && OpenAt(lines, h, next) ensures h == i {
      if h < i {
        OpenPart(lines, h, i, next);
      }
    }
  }

  // ---------------------------------------------------------------- what is put out

  ghost predicate SetsStandard(line: string) {
    exists indent: string, comma: string :: StandardLine(line, indent, comma)
  }

  /** The target has a line that sets its standard among those between the header and line i. */
  ghost predicate HasStandard(lines: seq<string>, h: nat, i: nat)
    requires i <= |lines|
  {
    exists j | h < j < i :: SetsStandard(lines[j]) && !Vhdl1993Line(lines[j])
  }

  /** The white space the line put out last starts with, if it starts with a space. */
  ghost predicate Guessed(last: Option<string>, indent: string) {
    if last.Some? && last.value != "" && last.value[0] == ' ' then
      White(indent) && exists rest: string :: last.value == indent + rest && (rest != "" ==> !White([rest[0]]))
    else indent == "    "
  }

  ghost predicate SetTo2019(line: string, indent: string, comma: string, piece: seq<string>) {
    StandardLine(line, indent, comma) && piece == [indent + "standard = \"2019\"" + comma]
  }

  ghost predicate PutsIn(last: Option<string>, line: string, indent: string, piece: seq<string>) {
    Guessed(last, indent) && piece == [indent + "standard = \"2019\"" + ",", line]
  }

  /** What is put out for line i in the target that line h opens, when `last` was put out before it. */
  ghost predicate PutOut(lines: seq<string>, h: nat, i: nat, last: Option<string>, piece: seq<string>)
    requires h < i < |lines|
  {
    var line := lines[i];
    if Vhdl1993Line(line) then piece == []
    else if SetsStandard(line) then
      exists indent: string, comma: string :: SetTo2019(line, indent, comma, piece)
    else if Depth(lines, h, i + 1) == 0 && CloseLine(line) && !HasStandard(lines, h, i) then
      exists indent: string :: PutsIn(last, line, indent, piece)
    else piece == [line]
  }

  /** What becomes of line i: outside targets it stays as it is. */
  ghost predicate Becomes(lines: seq<string>, i: nat, last: Option<string>, piece: seq<string>)
    requires i < |lines|
  {
    if Inside(lines, i) then exists h | 0 <= h < i :: OpenAt(lines, h, i) && PutOut(lines, h, i, last, piece)
    else piece == [lines[i]]
  }

  function Flat(pieces: seq<seq<string>>): seq<string> {
    if pieces == [] then [] else Flat(pieces[..|pieces| - 1]) + pieces[|pieces| - 1]
  }

  lemma FlatMore(pieces: seq<seq<string>>, piece: seq<string>)
    ensures Flat(pieces + [piece]) == Flat(pieces) + piece
  {
    assert (pieces + [piece])[..|pieces|] == pieces;
  }

  function LastOf(out: seq<string>): Option<string> {
    if out == [] then None else Some(out[|out| - 1])
  }

  /** The lines put out, line by line of the file. */
  ghost predicate Pieces(lines: seq<string>, pieces: seq<seq<string>>) {
    |pieces| <= |lines|
    && forall i | 0 <= i < |pieces| :: Becomes(lines, i, LastOf(Flat(pieces[..i])), pieces[i])
  }

  ghost predicate FixedAs(lines: seq<string>, out: seq<string>) {
    exists pieces :: |pieces| == |lines| && Pieces(lines, pieces) && out == Flat(pieces)
  }

  lemma PiecesMore(lines: seq<string>, pieces: seq<seq<string>>, piece: seq<string>)
    requires |pieces| < |lines| && Pieces(lines, pieces)
    requires Becomes(lines, |pieces|, LastOf(Flat(pieces)), piece)
    ensures Pieces(lines, pieces + [piece]) && Flat(pieces + [piece]) == Flat(pieces) + piece
  {
    hide Becomes, LastOf, Flat;
    var more := pieces + [piece];
    FlatMore(pieces, piece);
    assert more[..|pieces|] == pieces;
    forall i | 0 <= i < |pieces| ensures more[..i] == pieces[..i] && more[i] == pieces[i] {
    }
  }

  /** Every target that is closed: if it sets its standard, each such line sets it to 2019 in what is put
      out and nothing is put in; if it does not, a line that does is put in before a closing
      parenthesis alone on its line, and only there. */
  lemma TargetGetsStandard(lines: seq<string>, pieces: seq<seq<string>>, h: nat, e: nat)
    requires Pieces(lines, pieces) && h < e < |pieces| && OpenAt(lines, h, e) && !StaysOpen(lines, h, e)
    ensures forall j | h < j <= e && SetsStandard(lines[j]) && !Vhdl1993Line(lines[j]) ::
              exists indent: string, comma: string :: SetTo2019(lines[j], indent, comma, pieces[j])
    ensures !HasStandard(lines, h, e + 1) && CloseLine(lines[e]) ==>
              exists indent: string :: PutsIn(LastOf(Flat(pieces[..e])), lines[e], indent, pieces[e])
    ensures !HasStandard(lines, h, e + 1) && !CloseLine(lines[e]) ==> pieces[e] == [lines[e]]
  {
    hide HeaderLine, Vhdl1993Line, StandardLine, CloseLine, StaysOpen, Depth, SetTo2019, PutsIn;
    hide SetsStandard, HasStandard, Flat, LastOf;
    forall j | h < j <= e && SetsStandard(lines[j]) && !Vhdl1993Line(lines[j])
      ensures exists indent: string, comma: string :: SetTo2019(lines[j], indent, comma, pieces[j])
    {
      OpenPart(lines, h, j, e);
      BecomesPut(lines, h, j, LastOf(Flat(pieces[..j])), pieces[j]);
    }
    BecomesPut(lines, h, e, LastOf(Flat(pieces[..e])), pieces[e]);
    ClosedDepth(lines, h, e);
    if !HasStandard(lines, h, e + 1) {
      NoStandard(lines, h, e);
    }
  }

  lemma NoStandard(lines: seq<string>, h: nat, e: nat)
    requires h < e < |lines| && !HasStandard(lines, h, e + 1) && !Vhdl1993Line(lines[e])
    ensures !HasStandard(lines, h, e) && !SetsStandard(lines[e])
  {
  }

  lemma BecomesPut(lines: seq<string>, h: nat, i: nat, last: Option<string>, piece: seq<string>)
    requires h < i < |lines| && OpenAt(lines, h, i) && Becomes(lines, i, last, piece)
    ensures PutOut(lines, h, i, last, piece)
  {
    hide OpenAt, PutOut;
    assert Inside(lines, i);
    var h' :| 0 <= h' < i && OpenAt(lines, h', i) && PutOut(lines, h', i, last, piece);
    OpenOnce(lines, h, h', i);
  }

  lemma ClosedDepth(lines: seq<string>, h: nat, e: nat)
    requires h < e < |lines| && !StaysOpen(lines, h, e)
    ensures Depth(lines, h, e + 1) == 0 && !Vhdl1993Line(lines[e])
  {
  }

  // ---------------------------------------------------------------- what the validator reports

  /** For the validator every header opens a target, and the last one is open until a line closes it. */
  ghost predicate SeenOpen(lines: seq<string>, h: nat, i: nat)
    requires h < i <= |lines|
  {
    HeaderLine(lines[h]) && forall j | h < j < i :: StaysSeen(lines, h, j)
  }

  ghost predicate StaysSeen(lines: seq<string>, h: nat, j: nat)
    requires h <= j < |lines|
  {
    !HeaderLine(lines[j]) && Depth(lines, h, j + 1) != 0
  }

  ghost predicate SeenInside(lines: seq<string>, i: nat)
    requires i <= |lines|
  {
    exists h | 0 <= h < i :: SeenOpen(lines, h, i)
  }

  lemma SeenOnce(lines: seq<string>, h: nat, h': nat, i: nat)
    requires h < i <= |lines| && h' < i && SeenOpen(lines, h, i) && SeenOpen(lines, h', i)
    ensures h == h'
  {
    hide HeaderLine, Depth;
    assert h < h' ==> StaysSeen(lines, h, h');
    assert h' < h ==> StaysSeen(lines, h', h);
  }

  /** One more line: a header opens a target, any other leaves the one open so or closes it. */
  lemma SeenNext(lines: seq<string>, i: nat)
    requires i < |lines|
    ensures HeaderLine(lines[i]) ==> SeenOpen(lines, i, i + 1) && SeenInside(lines, i + 1)
    ensures !HeaderLine(lines[i]) && !SeenInside(lines, i) ==> !SeenInside(lines, i + 1)
    ensures forall h | 0 <= h < i && SeenOpen(lines, h, i) && !HeaderLine(lines[i]) ::
              (SeenInside(lines, i + 1) <==> Depth(lines, h, i + 1) != 0)
              && (SeenInside(lines, i + 1) ==> SeenOpen(lines, h, i + 1))
  {
    hide HeaderLine, Depth;
    var next := i + 1;
    forall h | 0 <= h < next && SeenOpen(lines, h, next)
      ensures h == i || (SeenOpen(lines, h, i) && StaysSeen(lines, h, i))
    {
    }
    forall h, h' | 0 <= h < i && 0 <= h' < i && SeenOpen(lines, h, i) && SeenOpen(lines, h', i) ensures h == h' {
      SeenOnce(lines, h, h', i);
    }
    forall h | 0 <= h < i && SeenOpen(lines, h, i) && StaysSeen(lines, h, i) ensures SeenOpen(lines, h, next) {
    }
  }

  /** Line j gives a name to the target it is in. */
  ghost predicate GivesName(lines: seq<string>, j: nat, name: string)
    requires j < |lines|
  {
    SeenInside(lines, j) && !HeaderLine(lines[j]) && NameLine(lines[j], name)
  }

  /** The last name given before line i, by whatever target; the empty one if there is none. */
  ghost predicate LastName(lines: seq<string>, i: nat, name: string)
    requires i <= |lines|
  {
    || (name == "" && forall j | 0 <= j < i :: Nameless(lines, j))
    || exists j | 0 <= j < i :: GivesName(lines, j, name) && forall l | j < l < i :: Nameless(lines, l)
  }

  ghost predicate Nameless(lines: seq<string>, j: nat)
    requires j < |lines|
  {
    forall name: string :: !GivesName(lines, j, name)
  }

  lemma NameNext(lines: seq<string>, i: nat, name: string, next: string)
    requires i < |lines| && LastName(lines, i, name)
    requires GivesName(lines, i, next) || (Nameless(lines, i) && next == name)
    ensures LastName(lines, i + 1, next)
  {
    hide GivesName, Nameless;
  }

  /** Line i closes a target in which no line sets the standard to 2019. */
  ghost predicate Lacks(lines: seq<string>, h: nat, i: nat)
    requires h < i < |lines|
  {
    SeenOpen(lines, h, i) && Depth(lines, h, i + 1) == 0 && !Has2019(lines, h, i + 1)
  }

  ghost predicate Has2019(lines: seq<string>, h: nat, i: nat)
    requires i <= |lines|
  {
    exists j | h < j < i :: Standard2019Line(lines[j])
  }

  /** What is reported at line i: the last name, if the line closes a target without the standard. */
  ghost predicate Reports(lines: seq<string>, i: nat, names: seq<string>)
    requires i < |lines|
  {
    if !HeaderLine(lines[i]) && exists h | 0 <= h < i :: Lacks(lines, h, i) then
      exists name: string :: LastName(lines, i + 1, name) && names == [name]
    else names == []
  }

  ghost predicate AllReports(lines: seq<string>, reports: seq<seq<string>>) {
    |reports| <= |lines| && forall i | 0 <= i < |reports| :: Reports(lines, i, reports[i])
  }

  ghost predicate ReportedAs(lines: seq<string>, missing: seq<string>) {
    exists reports :: |reports| == |lines| && AllReports(lines, reports) && missing == Flat(reports)
  }

  lemma ReportsMore(lines: seq<string>, reports: seq<seq<string>>, names: seq<string>)
    requires |reports| < |lines| && AllReports(lines, reports) && Reports(lines, |reports|, names)
    ensures AllReports(lines, reports + [names]) && Flat(reports + [names]) == Flat(reports) + names
  {
    hide Reports, Flat;
    FlatMore(reports, names);
    assert forall i | 0 <= i < |reports| :: (reports + [names])[i] == reports[i];
  }
}
