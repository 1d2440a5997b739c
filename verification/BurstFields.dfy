/** The burst masters' port and replies field by field: what every request carries, what the port
    shows at each rising edge of a run, and where a reply's data comes from. */
module BurstFields {
  import opened Common
  import opened TileLink
  import opened BurstCommands
  import opened BurstLaws

  // ---------------------------------------------------------------- requests and replies

  /** The 32-bit beats of a transfer, by its size code. */
  const BEATS: seq<nat> := [1, 1, 1, 2, 4, 8, 16, 32]

  lemma BeatsOf(size: Code)
    ensures TotalBeats(size) == BEATS[size]
  {
    assert Pow2(3) == 8 && Pow2(4) == 16 && Pow2(5) == 32;
    assert size <= 2 || size == 3 || size == 4 || size == 5 || size == 6 || size == 7;
  }

  /** How many requests a command makes: a write one per beat, a read or an atomic one. */
  function Requested(cmd: Command): nat {
    if cmd.isWrite && !cmd.isAtomic then BEATS[cmd.size] else 1
  }

  /** How many responses it waits for: a write one, a read or an atomic one per beat. */
  function Awaited(cmd: Command): nat {
    if cmd.isWrite && !cmd.isAtomic then 1 else BEATS[cmd.size]
  }

  /** a is request i of the command. A write puts all data with opcode 0 or, if a byte lane is not
      selected, partial data with opcode 1, each beat 4 bytes after the one before; a read asks
      with opcode 4; an atomic gives its own opcode, parameter and first operand. */
  ghost predicate Asks(a: ChannelA, cmd: Command, i: nat)
    requires cmd.dat != []
  {
    && a.valid && a.size == cmd.size && a.mask == cmd.sel
    && if cmd.isWrite && !cmd.isAtomic then
         && a.opcode == (if cmd.sel == [true, true, true, true] then 0 else 1) && a.param == 0
         && a.address == (cmd.adr + 4 * i) % 0x1_0000_0000
         && a.data == if i < |cmd.dat| then cmd.dat[i] else cmd.dat[|cmd.dat| - 1]
       else
         && a.opcode == (if cmd.isAtomic then cmd.opcode else 4) && a.param == (if cmd.isAtomic then cmd.param else 0)
         && a.address == cmd.adr && a.data == cmd.dat[0]
  }

  /** The reply to a write is the command; a read's or an atomic's has the responses in its data
      fields, from the first on. */
  ghost predicate Answered(cmd: Command, reply: Command, given: seq<Word>) {
    && reply == cmd.(dat := reply.dat) && |reply.dat| == |cmd.dat|
    && (cmd.isWrite && !cmd.isAtomic ==> reply == cmd)
    && (!cmd.isWrite || cmd.isAtomic ==>
          forall j | 0 <= j < |cmd.dat| :: reply.dat[j] == if j < |given| then given[j] else cmd.dat[j])
  }

  lemma BeatAsks(cmd: Command, i: nat)
    requires cmd.dat != []
    ensures Asks(Beat(cmd, i), cmd, i)
    ensures BeatCount(cmd) == Requested(cmd) && Acks(cmd) == Awaited(cmd)
  {
    BeatsOf(cmd.size);
  }

  lemma ReplyAnswers(cmd: Command, given: seq<Word>)
    ensures Answered(cmd, Reply(cmd, given), given)
  {
  }

  /** Against any peer: the i-th request accepted is request i of the command, they are as many as
      the edges at which the peer was ready until all are made, and the responses taken are as
      many as it gave until all have come. */
  lemma CommandFields(cmd: Command, p: seq<PerPort>)
    requires cmd.dat != []
    ensures var w := CommandWave(cmd, p); var sent, taken := Accepted(w, p), Taken(w, p);
            && (forall i | 0 <= i < |sent| :: Asks(sent[i], cmd, i))
            && |sent| == Min(|ReadyEdges(p, 0, |p|)|, Requested(cmd))
            && |taken| == Min(|ValidEdges(p, 0, |p|)|, Awaited(cmd))
  {
    hide *;
    CommandHandshakes(cmd, p);
    CountsAreEdges(p, 0, |p|);
    assert p[0..|p|] == p;
    BeatAsks(cmd, 0);
    var sent := Accepted(CommandWave(cmd, p), p);
    forall i | 0 <= i < |sent| ensures Asks(sent[i], cmd, i) {
      BeatAsks(cmd, i);
      BeatsAt(cmd, |sent|, i);
    }
    Least(|ReadyEdges(p, 0, |p|)|, Requested(cmd));
    Least(|ValidEdges(p, 0, |p|)|, Awaited(cmd));
  }

  lemma BeatsAt(cmd: Command, k: nat, i: nat)
    requires cmd.dat != [] && i < k
    ensures BeatsUpTo(cmd, k)[i] == Beat(cmd, i)
  {
  }

  lemma Least(a: nat, b: nat)
    ensures Min(a, b) <= a && Min(a, b) <= b
  {
  }

  // ---------------------------------------------------------------- edge by edge

  /** The edges from s up to t at which the peer is ready for a request. */
  ghost function ReadyEdges(p: seq<PerPort>, s: nat, t: nat): set<nat>
    requires s <= t <= |p|
  {
    set u: nat | s <= u < t && p[u].aReady
  }

  /** The edges from s up to t at which the peer gives a response. */
  ghost function ValidEdges(p: seq<PerPort>, s: nat, t: nat): set<nat>
    requires s <= t <= |p|
  {
    set u: nat | s <= u < t && p[u].dValid
  }

  lemma {:induction false} CountsAreEdges(p: seq<PerPort>, s: nat, t: nat)
    requires s <= t <= |p|
    ensures Readies(p[s..t]) == |ReadyEdges(p, s, t)| && |Responses(p[s..t])| == |ValidEdges(p, s, t)|
    decreases t
  {
    hide Readies, Responses;
    var seen := p[s..t];
    if s == t {
      assert seen == [] && ReadyEdges(p, s, t) == {} && ValidEdges(p, s, t) == {};
      CountsStart();
    } else {
      CountsAreEdges(p, s, t - 1);
      assert seen == p[s..t - 1] + [p[t - 1]];
      CountsStep(p[s..t - 1], p[t - 1]);
      EdgesStep(p, s, t - 1);
    }
  }

  lemma CountsStart()
    ensures Readies([]) == 0 && Responses([]) == []
  {
  }

  lemma CountsStep(q: seq<PerPort>, per: PerPort)
    ensures Readies(q + [per]) == Readies(q) + if per.aReady then 1 else 0
    ensures Responses(q + [per]) == Responses(q) + if per.dValid then [per.dData] else []
  {
    assert (q + [per])[..|q|] == q;
  }

  lemma EdgesStep(p: seq<PerPort>, s: nat, t: nat)
    requires s <= t < |p|
    ensures |ReadyEdges(p, s, t + 1)| == |ReadyEdges(p, s, t)| + if p[t].aReady then 1 else 0
    ensures |ValidEdges(p, s, t + 1)| == |ValidEdges(p, s, t)| + if p[t].dValid then 1 else 0
  {
    OneMore(ReadyEdges(p, s, t), ReadyEdges(p, s, t + 1), t, p[t].aReady);
    OneMore(ValidEdges(p, s, t), ValidEdges(p, s, t + 1), t, p[t].dValid);
  }

  lemma OneMore(was: set<nat>, now: set<nat>, t: nat, more: bool)
    requires t !in was && forall u :: u in now <==> u in was || (more && u == t)
    ensures |now| == |was| + if more then 1 else 0
  {
    assert now == if more then was + {t} else was;
  }

  /** The port at an edge of the command before which the peer was ready and gave responses so many
      times: a request is out until all are taken, the next one each time, and the host is ready
      for a response until all have come. */
  ghost predicate Shows(host: HostPort, cmd: Command, ready: nat, given: nat)
    requires cmd.dat != []
  {
    && host.a.valid == (ready < Requested(cmd)) && (ready < Requested(cmd) ==> Asks(host.a, cmd, ready))
    && host.dReady == (given < Awaited(cmd))
  }

  /** The port shows the command at each edge from s up to t. */
  ghost predicate Carried(cmd: Command, w: seq<HostPort>, p: seq<PerPort>, s: nat, t: nat)
    requires cmd.dat != [] && s <= t <= |p| && t <= |w|
  {
    forall u | s <= u < t :: Shows(w[u], cmd, |ReadyEdges(p, s, u)|, |ValidEdges(p, s, u)|)
  }

  /** The peer has taken every request and given every response between edges s and t. */
  ghost predicate Done(cmd: Command, p: seq<PerPort>, s: nat, t: nat)
    requires s <= t <= |p|
  {
    Requested(cmd) <= |ReadyEdges(p, s, t)| && Awaited(cmd) <= |ValidEdges(p, s, t)|
  }

  ghost predicate NotDoneBefore(cmd: Command, p: seq<PerPort>, s: nat, t: nat)
    requires s <= t <= |p|
  {
    forall u | s <= u < t :: !Done(cmd, p, s, u)
  }

  lemma ShowsAt(cmd: Command, ready: nat, given: nat)
    requires cmd.dat != []
    ensures Shows(HostAt(cmd, ready, given), cmd, ready, given)
  {
    hide Asks, Requested, Awaited, Beat, BeatCount, Acks;
    BeatAsks(cmd, ready);
    HostShows(cmd, ready, given);
  }

  lemma {:induction false} WaveAt(cmd: Command, p: seq<PerPort>, k: nat)
    requires cmd.dat != [] && k < |p|
    ensures CommandWave(cmd, p)[k] == HostAt(cmd, Readies(p[..k]), |Responses(p[..k])|)
    decreases |p|
  {
    hide HostAt, Readies, Responses;
    if k < |p| - 1 {
      WaveAt(cmd, p[..|p| - 1], k);
      assert p[..|p| - 1][..k] == p[..k];
    }
  }

  /** What the wave of a command means for the run it is part of. */
  lemma WaveCarries(cmd: Command, before: seq<HostPort>, p: seq<PerPort>, s: nat, t: nat)
    requires cmd.dat != [] && |before| == s <= t <= |p|
    ensures Carried(cmd, before + CommandWave(cmd, p[s..t]), p, s, t)
    ensures Finished(cmd, p[s..t]) == Done(cmd, p, s, t)
    ensures NotBefore(cmd, p[s..t]) ==> NotDoneBefore(cmd, p, s, t)
  {
    hide CommandWave, HostAt, Shows, Readies, Responses, Finished, NotBefore, Done, ReadyEdges, ValidEdges;
    var seen := p[s..t];
    var w := before + CommandWave(cmd, seen);
    forall u | s <= u < t ensures Shows(w[u], cmd, |ReadyEdges(p, s, u)|, |ValidEdges(p, s, u)|) {
      WaveAt(cmd, seen, u - s);
      assert seen[..u - s] == p[s..u];
      CountsAreEdges(p, s, u);
      ShowsAt(cmd, |ReadyEdges(p, s, u)|, |ValidEdges(p, s, u)|);
    }
    FinishedIsDone(cmd, p, s, t);
    forall u | s <= u < t && NotBefore(cmd, seen) ensures !Done(cmd, p, s, u) {
      assert seen[..u - s] == p[s..u];
      FinishedIsDone(cmd, p, s, u);
      NotBeforeAt(cmd, seen, u - s);
    }
  }

  lemma NotBeforeAt(cmd: Command, seen: seq<PerPort>, k: nat)
    requires cmd.dat != [] && NotBefore(cmd, seen) && k < |seen|
    ensures !Finished(cmd, seen[..k])
  {
  }

  lemma FinishedIsDone(cmd: Command, p: seq<PerPort>, s: nat, t: nat)
    requires cmd.dat != [] && s <= t <= |p|
    ensures Finished(cmd, p[s..t]) == Done(cmd, p, s, t)
  {
    hide ReadyEdges, ValidEdges, Requested, Awaited, BeatCount, Acks;
    BeatAsks(cmd, 0);
    CountsAreEdges(p, s, t);
  }

  /** A finished command took just the responses due to it, and its reply holds them. */
  lemma FinishedAnswers(cmd: Command, before: seq<HostPort>, w: seq<HostPort>, p: seq<PerPort>, s: nat, t: nat)
    requires cmd.dat != [] && |before| == s <= t <= |p|
    requires w == before + CommandWave(cmd, p[s..t]) && Finished(cmd, p[s..t])
    ensures Answered(cmd, Reply(cmd, Responses(p[s..t])[..Acks(cmd)]), Taken(w[s..t], p[s..t]))
    ensures |Accepted(w[s..t], p[s..t])| == Requested(cmd) && |Taken(w[s..t], p[s..t])| == Awaited(cmd)
  {
    hide CommandWave, Readies, Responses, Accepted, Taken, Reply, BeatCount, Acks, Requested, Awaited, BeatsUpTo;
    var seen := p[s..t];
    assert w[s..t] == CommandWave(cmd, seen);
    CommandHandshakes(cmd, seen);
    BeatAsks(cmd, 0);
    ReplyAnswers(cmd, Responses(seen)[..Acks(cmd)]);
  }

  /** From edge s up to t the port carries the command out: edge by edge what is due, and every request
      accepted is the next one. It is over just when the peer has taken all of them and given
      every response, and then as many crossed the bus. */
  ghost predicate CarriedOut(cmd: Command, w: seq<HostPort>, p: seq<PerPort>, s: nat, t: nat, over: bool)
    requires cmd.dat != [] && s <= t <= |p| && t <= |w|
  {
    && Carried(cmd, w, p, s, t) && NotDoneBefore(cmd, p, s, t) && over == Done(cmd, p, s, t)
    && var sent, taken := Accepted(w[s..t], p[s..t]), Taken(w[s..t], p[s..t]);
       && (forall i | 0 <= i < |sent| :: Asks(sent[i], cmd, i))
       && (over ==> |sent| == Requested(cmd) && |taken| == Awaited(cmd))
  }

  lemma WaveCarriesOut(cmd: Command, before: seq<HostPort>, w: seq<HostPort>, p: seq<PerPort>, s: nat, t: nat)
    requires cmd.dat != [] && |before| == s <= t <= |p|
    requires w == before + CommandWave(cmd, p[s..t]) && NotBefore(cmd, p[s..t])
    ensures CarriedOut(cmd, w, p, s, t, Finished(cmd, p[s..t]))
  {
    hide CommandWave, Finished, NotBefore, Carried, NotDoneBefore, Done, Accepted, Taken, Asks, Requested, Awaited;
    hide ReadyEdges, ValidEdges, Readies, Responses, Reply, Answered;
    WaveCarries(cmd, before, p, s, t);
    assert w[s..t] == CommandWave(cmd, p[s..t]);
    CommandFields(cmd, p[s..t]);
    if Finished(cmd, p[s..t]) {
      FinishedAnswers(cmd, before, w, p, s, t);
    }
  }

  // ---------------------------------------------------------------- a run

  /** The host is silent on both channels. */
  ghost predicate Silent(w: seq<HostPort>, s: nat, t: nat)
    requires t <= |w|
  {
    forall u | s <= u < t :: !w[u].a.valid && !w[u].dReady
  }

  /** A command that came to a process free at `from`: one edge after its idle time its first request
      is out, at `start`, and up to `to` it is carried out and not done. */
  ghost predicate UnderWay(request: Request, w: seq<HostPort>, p: seq<PerPort>, from: nat, start: nat, to: nat)
    requires request.cmd.dat != []
  {
    && from + request.idle + 1 == start <= to <= |p| && to <= |w|
    && Silent(w, from, start)
    && Carried(request.cmd, w, p, start, to) && NotDoneBefore(request.cmd, p, start, to)
  }

  /** It is done at `to` and answered with the responses taken meanwhile. */
  ghost predicate Served(request: Request, w: seq<HostPort>, p: seq<PerPort>, from: nat, start: nat, to: nat,
                         reply: Command)
    requires request.cmd.dat != []
  {
    && UnderWay(request, w, p, from, start, to) && Done(request.cmd, p, start, to)
    && Answered(request.cmd, reply, Taken(w[start..to], p[start..to]))
  }

  /** When the process is free for command k. */
  function FreeAt(ends: seq<nat>, k: nat): nat
    requires k <= |ends|
  {
    if k == 0 then 0 else ends[k - 1]
  }

  /** Every command with a reply was served, one after the other. */
  ghost predicate AllServed(requests: seq<Request>, w: seq<HostPort>, p: seq<PerPort>, replies: seq<Command>,
                            starts: seq<nat>, ends: seq<nat>)
    requires WellFormed(requests)
  {
    && |starts| == |ends| == |replies| <= |requests|
    && forall k | 0 <= k < |replies| ::
         Served(requests[k], w, p, FreeAt(ends, k), starts[k], ends[k], replies[k])
  }

  /** A whole run: after the commands served the next one is under way, begun at starts[|ends|], or
      has not come. */
  ghost predicate Ran(requests: seq<Request>, w: seq<HostPort>, p: seq<PerPort>, replies: seq<Command>,
                      starts: seq<nat>, ends: seq<nat>)
    requires WellFormed(requests)
  {
    && |w| == |p| && |ends| <= |starts| && AllServed(requests, w, p, replies, starts[..|ends|], ends)
    && var m, free := |ends|, FreeAt(ends, |ends|);
       if |starts| == m then
         && Silent(w, free, |p|) && (m < |requests| ==> |p| <= free + requests[m].idle)
       else
         && |starts| == m + 1 && m < |requests|
         && UnderWay(requests[m], w, p, free, starts[m], |p|) && !Done(requests[m].cmd, p, starts[m], |p|)
  }

  lemma ServedKept(request: Request, w: seq<HostPort>, w': seq<HostPort>, p: seq<PerPort>, from: nat, start: nat,
                   to: nat, reply: Command)
    requires request.cmd.dat != [] && Served(request, w, p, from, start, to, reply) && w <= w'
    ensures Served(request, w', p, from, start, to, reply)
  {
    hide Shows, Done, Answered, NotDoneBefore, ReadyEdges, ValidEdges, Taken;
    assert w'[start..to] == w[start..to];
    assert forall u | 0 <= u < |w| :: w'[u] == w[u];
  }

  lemma ServedLater(requests: seq<Request>, w: seq<HostPort>, w': seq<HostPort>, p: seq<PerPort>,
                    replies: seq<Command>, starts: seq<nat>, ends: seq<nat>)
    requires WellFormed(requests) && AllServed(requests, w, p, replies, starts, ends) && w <= w'
    ensures AllServed(requests, w', p, replies, starts, ends)
  {
    hide Served;
    forall k | 0 <= k < |replies|
      ensures Served(requests[k], w', p, FreeAt(ends, k), starts[k], ends[k], replies[k])
    {
      ServedKept(requests[k], w, w', p, FreeAt(ends, k), starts[k], ends[k], replies[k]);
    }
  }

  lemma ServedOneMore(requests: seq<Request>, w: seq<HostPort>, w': seq<HostPort>, p: seq<PerPort>,
                      replies: seq<Command>, starts: seq<nat>, ends: seq<nat>, start: nat, to: nat, reply: Command)
    requires WellFormed(requests) && AllServed(requests, w, p, replies, starts, ends) && w <= w'
    requires |replies| < |requests|
    requires Served(requests[|replies|], w', p, FreeAt(ends, |ends|), start, to, reply)
    ensures AllServed(requests, w', p, replies + [reply], starts + [start], ends + [to])
  {
    hide Served;
    ServedLater(requests, w, w', p, replies, starts, ends);
  }

  lemma NoneServed(requests: seq<Request>, w: seq<HostPort>, p: seq<PerPort>)
    requires WellFormed(requests)
    ensures AllServed(requests, w, p, [], [], []) && FreeAt([], 0) == 0
  {
  }

  /** Silence after the idle edges: the host port is the one nothing was assigned to. */
  lemma IdleIsSilent(before: seq<HostPort>, n: nat)
    ensures Silent(before + Idle(n), |before|, |before| + n)
  {
  }

  /** The next command after the ones served: silence, then the command up to edge t. */
  lemma NextUnderWay(requests: seq<Request>, before: seq<HostPort>, w: seq<HostPort>, p: seq<PerPort>,
                     k: nat, s: nat, over: bool)
    requires WellFormed(requests) && k < |requests| && s == |before| + requests[k].idle + 1
    requires s <= |w| <= |p| && before + Idle(s - |before|) <= w
    requires CarriedOut(requests[k].cmd, w, p, s, |w|, over)
    ensures UnderWay(requests[k], w, p, |before|, s, |w|) && over == Done(requests[k].cmd, p, s, |w|)
  {
    hide Carried, NotDoneBefore, Done, Idle;
    IdleIsSilent(before, s - |before|);
    var quiet := before + Idle(s - |before|);
    assert forall u | 0 <= u < |quiet| :: w[u] == quiet[u];
  }

  lemma CommandServed(requests: seq<Request>, before: seq<HostPort>, w: seq<HostPort>, p: seq<PerPort>,
                      replies: seq<Command>, starts: seq<nat>, ends: seq<nat>, s: nat, t: nat, reply: Command)
    requires WellFormed(requests) && AllServed(requests, before, p, replies, starts, ends)
    requires |replies| < |requests| && |before| == FreeAt(ends, |replies|)
    requires s == |before| + requests[|replies|].idle + 1 && s <= |w| == t <= |p|
    requires before + Idle(s - |before|) <= w
    requires CarriedOut(requests[|replies|].cmd, w, p, s, t, true)
    requires Answered(requests[|replies|].cmd, reply, Taken(w[s..t], p[s..t]))
    ensures AllServed(requests, w, p, replies + [reply], starts + [s], ends + [t])
    ensures t == FreeAt(ends + [t], |replies| + 1)
  {
    hide CarriedOut, UnderWay, Done, Answered, Taken;
    NextUnderWay(requests, before, w, p, |replies|, s, true);
    assert before <= before + Idle(s - |before|);
    ServedOneMore(requests, before, w, p, replies, starts, ends, s, t, reply);
  }

  lemma RunEndsUnderWay(requests: seq<Request>, before: seq<HostPort>, w: seq<HostPort>, p: seq<PerPort>,
                        replies: seq<Command>, starts: seq<nat>, ends: seq<nat>, s: nat)
    requires WellFormed(requests) && AllServed(requests, before, p, replies, starts, ends)
    requires |replies| < |requests| && |before| == FreeAt(ends, |replies|)
    requires s == |before| + requests[|replies|].idle + 1 && s <= |w| == |p|
    requires before + Idle(s - |before|) <= w
    requires CarriedOut(requests[|replies|].cmd, w, p, s, |w|, false)
    ensures Ran(requests, w, p, replies, starts + [s], ends)
  {
    hide CarriedOut, UnderWay, Done;
    NextUnderWay(requests, before, w, p, |replies|, s, false);
    assert before <= before + Idle(s - |before|);
    ServedLater(requests, before, w, p, replies, starts, ends);
    assert (starts + [s])[..|ends|] == starts;
  }

  lemma RunEndsSilent(requests: seq<Request>, before: seq<HostPort>, w: seq<HostPort>, p: seq<PerPort>,
                      replies: seq<Command>, starts: seq<nat>, ends: seq<nat>)
    requires WellFormed(requests) && AllServed(requests, before, p, replies, starts, ends)
    requires |before| == FreeAt(ends, |ends|) <= |p| == |w|
    requires w == before + Idle(|p| - |before|)
    requires |replies| < |requests| ==> |p| <= |before| + requests[|replies|].idle
    ensures Ran(requests, w, p, replies, starts, ends)
  {
    hide Served;
    IdleIsSilent(before, |p| - |before|);
    ServedLater(requests, before, w, p, replies, starts, ends);
    assert starts[..|ends|] == starts;
  }
}
