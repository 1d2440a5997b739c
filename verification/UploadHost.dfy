/** The host of an upload, whose lines come under credit, and what becomes of its bytes while the
    uploader waits for its last ones to go out. */
module UploadHost {
  import opened Common
  import opened PolledUart
  import opened IhexRecords

  // ---------------------------------------------------------------- the host's lines

  /** A host that waits for credit and sends lines of at most 255 bytes, newline included. */
  ghost predicate Behaved(lines: seq<string>, gated: bool) {
    gated && forall i :: 0 <= i < |lines| ==> IsLine(lines[i]) && |lines[i]| <= 255
  }

  /** Of a line and what follows it, reading up to a newline takes exactly the line. */
  lemma TakesLine(first: string, later: string, got: string)
    requires IsLine(first) && got <= first + later
    ensures IsLine(got) ==> got == first
    ensures |first| < RING == |got| ==> '\n' in got[..RING - 1]
  {
    var n := |first|;
    if n <= |got| {
      assert got[n - 1] == (first + later)[n - 1] == first[n - 1];
      assert n < |got| ==> got[n - 1] in got[..|got| - 1];
      assert |got| == RING && n < RING ==> got[..RING - 1][n - 1] == '\n';
    } else if got != "" {
      assert got[|got| - 1] == (first + later)[|got| - 1] == first[..n - 1][|got| - 1];
    }
    if |got| == n {
      assert got == (first + later)[..n] == first;
    }
  }

  /** What is read up to a newline is the host's next line. */
  lemma TakesNextLine(lines: seq<string>, k: nat, got: string)
    requires Behaved(lines, true) && k <= |lines|
    requires Joined(lines[..k]) + got <= Joined(lines)
    ensures IsLine(got) ==> k < |lines| && got == lines[k] && Joined(lines[..k + 1]) == Joined(lines[..k]) + got
    ensures |got| == RING ==> '\n' in got[..RING - 1]
  {
    JoinedAround(lines, k);
    hide Joined;
    PrefixCancels(Joined(lines[..k]), got, Joined(lines[k..]));
    if k < |lines| {
      TakesLine(lines[k], Joined(lines[k + 1..]), got);
    }
  }

  lemma JoinedAround(lines: seq<string>, k: nat)
    requires k <= |lines|
    ensures Joined(lines) == Joined(lines[..k]) + Joined(lines[k..])
    ensures k < |lines| ==> Joined(lines[k..]) == lines[k] + Joined(lines[k + 1..])
    ensures k < |lines| ==> Joined(lines[..k + 1]) == Joined(lines[..k]) + lines[k]
    ensures k == |lines| ==> Joined(lines[k..]) == ""
  {
    hide *;
    JoinedConcat(lines[..k], lines[k..]);
    assert lines[..k] + lines[k..] == lines;
    if k < |lines| {
      JoinedSnoc(lines, k);
      JoinedCons(lines, k);
    } else {
      JoinedNone();
      assert lines[k..] == [];
    }
  }

  lemma JoinedNone()
    ensures Joined([]) == ""
  {
  }

  lemma JoinedCons(lines: seq<string>, k: nat)
    requires k < |lines|
    ensures Joined(lines[k..]) == lines[k] + Joined(lines[k + 1..])
  {
    hide *;
    assert lines[k..] == [lines[k]] + lines[k + 1..];
    JoinedConcat([lines[k]], lines[k + 1..]);
    JoinedOne(lines[k]);
  }

  lemma JoinedOne(line: string)
    ensures Joined([line]) == line
  {
    assert [line][..0] == [] && "" + line == line;
  }

  lemma JoinedSnoc(lines: seq<string>, k: nat)
    requires k < |lines|
    ensures Joined(lines[..k + 1]) == Joined(lines[..k]) + lines[k]
  {
    assert lines[..k + 1][..k] == lines[..k];
  }

  lemma PrefixCancels(a: string, b: string, c: string)
    requires a + b <= a + c
    ensures b <= c
  {
    assert (a + b)[|a|..] == b && (a + c)[|a|..] == c;
    assert (a + c)[..|a + b|] == a + b;
    assert (a + c)[|a|..][..|b|] == (a + c)[|a|..|a| + |b|];
  }

  const BOOT := "32-bit boot\r\n"
  const PROMPT := "ihex:"

  /** All that goes out before the first line is read, piece by piece. */
  function Greeting(): string {
    BOOT + CRLF + PROMPT + CRLF
  }

  lemma GreetingPieces()
    ensures "" + BOOT + (CRLF + (PROMPT + CRLF)) == Greeting()
    ensures BOOT + CRLF + (PROMPT + CRLF) == Greeting()
    ensures BOOT + CRLF + PROMPT + CRLF == Greeting()
    ensures Greeting() + "" == Greeting()
    ensures NUL !in BOOT && NUL !in CRLF && NUL !in PROMPT && XON !in Greeting()
    ensures "" + BOOT == BOOT
    ensures Greeting() == "32-bit boot\r\n\r\nihex:\r\n"
  {
    ConcatAssoc(BOOT, CRLF, PROMPT + CRLF);
    ConcatAssoc(BOOT + CRLF, PROMPT, CRLF);
  }

  // ---------------------------------------------------------------- the drain loop

  /** What waiting for an empty transmit FIFO comes to: the port after it, the bytes its status reads
      took from the receive FIFO, how many reads it made, and whether it came to its end. */
  datatype Drain = Drain(port: Port, lost: string, polls: nat, done: bool)

  function Drained(stream: string, limit: nat, ticks: seq<Tick>, p: Port): Drain
    requires p.sent <= limit <= |stream|
    decreases |ticks|
  {
    if ticks == [] then Drain(p, "", 0, false)
    else
      var q := Ticked(stream, limit, ticks[0], p);
      var taken := if q.rx == "" then "" else [q.rx[0]];
      if q.tx == "" then Drain(q.Taken(), taken, 1, true)
      else
        var more := Drained(stream, limit, ticks[1..], q.Taken());
        Drain(more.port, taken + more.lost, more.polls + 1, more.done)
  }

  /** The bytes received before and during the wait are those lost and those left. If there was a
      read, nothing is lost just when nothing was waiting and nothing has arrived. */
  lemma {:induction false} DrainLoses(stream: string, limit: nat, ticks: seq<Tick>, p: Port)
    requires p.sent <= limit <= |stream|
    ensures var d := Drained(stream, limit, ticks, p);
            && p.sent <= d.port.sent <= limit && |d.lost| <= d.polls <= |ticks|
            && p.rx + stream[p.sent..d.port.sent] == d.lost + d.port.rx
            && (ticks != [] ==> (d.lost == "" <==> p.rx == "" && d.port.sent == p.sent))
            && (d.done ==> d.port.tx == "")
    decreases |ticks|
  {
    if ticks == [] {
      assert p.rx + stream[p.sent..p.sent] == p.rx == "" + p.rx;
    } else {
      var d, q := Drained(stream, limit, ticks, p), Ticked(stream, limit, ticks[0], p);
      var taken, rest := if q.rx == "" then "" else [q.rx[0]], q.Taken();
      assert q.rx == taken + rest.rx && rest.tx == q.tx && rest.sent == q.sent;
      assert p.rx + stream[p.sent..q.sent] == q.rx;
      if q.tx == "" {
        assert d == Drain(rest, taken, 1, true);
      } else {
        var more := Drained(stream, limit, ticks[1..], rest);
        assert d == Drain(more.port, taken + more.lost, more.polls + 1, more.done);
        DrainLoses(stream, limit, ticks[1..], rest);
        hide *;
        Stretch(stream, p.sent, q.sent, d.port.sent);
        ConcatAssoc(p.rx, stream[p.sent..q.sent], stream[q.sent..d.port.sent]);
        ConcatAssoc(taken, rest.rx, stream[q.sent..d.port.sent]);
        ConcatAssoc(taken, more.lost, d.port.rx);
      }
    }
  }

  lemma Stretch(stream: string, i: nat, j: nat, k: nat)
    requires i <= j <= k <= |stream|
    ensures stream[i..k] == stream[i..j] + stream[j..k]
  {
  }

  /** A byte that arrives with the last one going out is lost. */
  lemma DrainLosesOne()
    ensures Drained("x", 1, [Tick(1, 1)], Port(0, "", "\n")) == Drain(Port(1, "", ""), "x", 1, true)
  {
    var q := Ticked("x", 1, Tick(1, 1), Port(0, "", "\n"));
    assert q == Port(1, "x", "");
  }

  /** The wait does not end only if the script does; with a byte going out between any two reads
      there is an end after as many reads as there are bytes, or one. */
  lemma {:induction false} DrainEnds(stream: string, limit: nat, ticks: seq<Tick>, p: Port)
    requires p.sent <= limit <= |stream| && |p.tx| <= TX_DEPTH
    ensures var d := Drained(stream, limit, ticks, p); !d.done ==> d.polls == |ticks|
    ensures ticks != [] && |p.tx| <= |ticks| && (forall tick <- ticks :: EagerTick(tick)) ==>
              Drained(stream, limit, ticks, p).done
    decreases |ticks|
  {
    hide Ticked;
    if ticks != [] {
      var q := Ticked(stream, limit, ticks[0], p);
      FewerLeft(stream, limit, ticks[0], p);
      if q.tx != "" {
        DrainEnds(stream, limit, ticks[1..], q.Taken());
      }
    }
  }

  lemma FewerLeft(stream: string, limit: nat, tick: Tick, p: Port)
    requires p.sent <= limit <= |stream| && |p.tx| <= TX_DEPTH
    ensures var q := Ticked(stream, limit, tick, p);
            q.Taken().sent == q.sent <= limit && q.Taken().tx == q.tx && |q.tx| <= |p.tx|
            && (EagerTick(tick) ==> q.tx == "" || |q.tx| < |p.tx|)
  {
    if EagerTick(tick) {
      TickedEager(stream, limit, tick, p);
    }
  }

  /** Where the wait that comes to d in the end is after the reads from `from` to `at`. */
  ghost predicate DrainSoFar(stream: string, limit: nat, script: seq<Tick>, from: nat, at: nat, d: Drain, p: Port,
                             going: bool, done: bool) {
    && p.sent <= limit <= |stream| && from <= at <= |script| && (done ==> going)
    && if going && !done then
         var more := Drained(stream, limit, script[at..], p);
         d.port == more.port && d.done == more.done && d.polls == at - from + more.polls
       else d.port == p && d.done == done && d.polls == at - from
  }

  lemma DrainStarts(stream: string, limit: nat, script: seq<Tick>, at: nat, p: Port)
    requires p.sent <= limit <= |stream| && at <= |script|
    ensures DrainSoFar(stream, limit, script, at, at, Drained(stream, limit, script[at..], p), p, true, false)
  {
    hide Drained;
  }

  lemma DrainComplete(stream: string, limit: nat, script: seq<Tick>, from: nat, at: nat, d: Drain, p: Port,
                  going: bool, done: bool)
    requires DrainSoFar(stream, limit, script, from, at, d, p, going, done) && !(going && !done)
    ensures d.port == p && d.done == done && at == from + d.polls
  {
  }

  lemma DrainStep(stream: string, limit: nat, script: seq<Tick>, from: nat, at: nat, d: Drain, p: Port)
    requires DrainSoFar(stream, limit, script, from, at, d, p, true, false)
    ensures at == |script| ==> DrainSoFar(stream, limit, script, from, at, d, p, false, false)
    ensures at < |script| ==> var q := Ticked(stream, limit, script[at], p);
                              DrainSoFar(stream, limit, script, from, at + 1, d, q.Taken(), true, q.tx == "")
  {
    hide Ticked;
    if at < |script| {
      assert script[at..][0] == script[at] && script[at..][1..] == script[at + 1..];
    }
  }
}
