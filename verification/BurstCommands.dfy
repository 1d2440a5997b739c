/** What the burst masters make of a command, edge by edge, and of a run of commands. The peer is
    the sequence of what it shows at each rising edge; every behaviour of every peer, reactive or
    not, is such a sequence. */
module BurstCommands {
  import opened Common
  import opened Wrappers
  import opened TileLink

  /** A decoded command; dat holds the record's data fields dat0, dat1, and so on. */
  datatype Command = Command(adr: Address, dat: seq<Word>, sel: Mask, size: Code,
                             isWrite: bool, isAtomic: bool, opcode: Code, param: Code) {
    predicate IsPut() {
      isWrite && !isAtomic
    }
  }

  /** Number of 32-bit beats of a transfer of 2^size bytes. */
  function TotalBeats(size: Code): (n: nat)
    ensures 0 < n
    ensures size <= 2 ==> n == 1
    ensures 2 < size ==> 4 * n == Pow2(size)
  {
    if size <= 2 then 1 else Pow2(size - 2)
  }

  // ---------------------------------------------------------------- what a command must do

  /** The k-th beat of a Put: the address advances by 4 per beat; the data field is the k-th one,
      or the last one when the record has too few. */
  function PutBeat(cmd: Command, k: nat): ChannelA
    requires cmd.dat != []
  {
    ChannelA(true, if cmd.sel == ALL_LANES then OP_PUT_FULL_DATA else OP_PUT_PARTIAL_DATA, 0, cmd.size,
             Plus(cmd.adr, 4 * k), cmd.sel, cmd.dat[Min(k, |cmd.dat| - 1)])
  }

  function GetBeat(cmd: Command): ChannelA
    requires cmd.dat != []
  {
    ChannelA(true, if cmd.isAtomic then cmd.opcode else OP_GET, if cmd.isAtomic then cmd.param else 0, cmd.size,
             cmd.adr, cmd.sel, cmd.dat[0])
  }

  /** The requests the command asks for: all beats of a Put, the one beat of a Get or atomic. */
  function Beat(cmd: Command, k: nat): (a: ChannelA)
    requires cmd.dat != []
    ensures a.valid
  {
    if cmd.IsPut() then PutBeat(cmd, k) else GetBeat(cmd)
  }

  function BeatCount(cmd: Command): (n: nat)
    ensures 0 < n
  {
    if cmd.IsPut() then TotalBeats(cmd.size) else 1
  }

  /** How many responses the command waits for. */
  function Acks(cmd: Command): nat {
    if cmd.IsPut() then 1 else TotalBeats(cmd.size)
  }

  /** The command record after its responses: the k-th response is in the k-th data field. */
  function Reply(cmd: Command, responses: seq<Word>): (reply: Command)
    ensures |reply.dat| == |cmd.dat|
  {
    if cmd.IsPut() then cmd
    else
      cmd.(dat := seq(|cmd.dat|, k requires 0 <= k < |cmd.dat| =>
                        if k < |responses| then responses[k] else cmd.dat[k]))
  }

  // ---------------------------------------------------------------- the process, edge by edge

  predicate Over(cmd: Command, ready: nat, valid: nat)
    requires cmd.dat != []
  {
    BeatCount(cmd) <= ready && Acks(cmd) <= valid
  }

  /** The command is over: the peer was ready once per beat and has given every response. */
  predicate Finished(cmd: Command, p: seq<PerPort>)
    requires cmd.dat != []
  {
    Over(cmd, Readies(p), |Responses(p)|)
  }

  /** The host port after the peer has been ready `ready` times and valid `valid` times. */
  function HostAt(cmd: Command, ready: nat, valid: nat): HostPort
    requires cmd.dat != []
  {
    HostPort(Beat(cmd, Min(ready, BeatCount(cmd) - 1)).(valid := ready < BeatCount(cmd)), valid < Acks(cmd))
  }

  /** The host port at each edge of a command, against a peer that shows p. */
  function CommandWave(cmd: Command, p: seq<PerPort>): (w: seq<HostPort>)
    requires cmd.dat != []
    ensures |w| == |p|
  {
    if p == [] then []
    else
      var q := p[..|p| - 1];
      CommandWave(cmd, q) + [HostAt(cmd, Readies(q), |Responses(q)|)]
  }

  /** The command was not over before the last of these edges. */
  ghost predicate NotBefore(cmd: Command, seen: seq<PerPort>)
    requires cmd.dat != []
  {
    forall t :: 0 <= t < |seen| ==> !Finished(cmd, seen[..t])
  }

  /** The least number of edges after which the command is over, counting from t. */
  function Duration(cmd: Command, p: seq<PerPort>, t: nat): Option<nat>
    requires cmd.dat != []
    decreases |p| - t
  {
    if |p| < t then None else if Finished(cmd, p[..t]) then Some(t) else Duration(cmd, p, t + 1)
  }

  lemma {:induction false} DurationIsLeast(cmd: Command, p: seq<PerPort>, from: nat, t: nat)
    requires cmd.dat != [] && from <= t <= |p|
    requires forall u :: from <= u < t ==> !Finished(cmd, p[..u])
    ensures Duration(cmd, p, from) == if Finished(cmd, p[..t]) then Some(t) else Duration(cmd, p, t + 1)
    decreases t - from
  {
    if from < t {
      DurationIsLeast(cmd, p, from + 1, t);
    }
  }

  lemma {:induction false} DurationBounds(cmd: Command, p: seq<PerPort>, from: nat)
    requires cmd.dat != []
    ensures var d := Duration(cmd, p, from); d.Some? ==> from <= d.value <= |p| && Finished(cmd, p[..d.value])
    ensures var d := Duration(cmd, p, from);
            forall u :: from <= u <= |p| && (d.Some? ==> u < d.value) ==> !Finished(cmd, p[..u])
    decreases |p| - from
  {
    if from <= |p| && !Finished(cmd, p[..from]) {
      DurationBounds(cmd, p, from + 1);
    }
  }

  /** A message as it reaches the process: how many edges it kept the process waiting, and what it says. */
  datatype Request = Request(idle: nat, cmd: Command)

  predicate WellFormed(requests: seq<Request>) {
    forall i :: 0 <= i < |requests| ==> requests[i].cmd.dat != []
  }

  function Idle(n: nat): (w: seq<HostPort>)
    ensures |w| == n
  {
    seq(n, _ => HOST_NEW)
  }

  /** The host port over a whole run: idle while no message is there and for the edge after it,
      then the command, and so on; idle again when there are no more messages. */
  function SessionWave(requests: seq<Request>, p: seq<PerPort>): (w: seq<HostPort>)
    requires WellFormed(requests)
    ensures |w| == |p|
    decreases requests
  {
    if requests == [] || |p| <= requests[0].idle then Idle(|p|)
    else
      var start, cmd := requests[0].idle + 1, requests[0].cmd;
      match Duration(cmd, p[start..], 0)
      case None => Idle(start) + CommandWave(cmd, p[start..])
      case Some(t) =>
        DurationBounds(cmd, p[start..], 0);
        Idle(start) + CommandWave(cmd, p[start..start + t]) + SessionWave(requests[1..], p[start + t..])
  }

  /** The replies over a whole run. */
  function SessionReplies(requests: seq<Request>, p: seq<PerPort>): (replies: seq<Command>)
    requires WellFormed(requests)
    decreases requests
  {
    if requests == [] || |p| <= requests[0].idle then []
    else
      var start, cmd := requests[0].idle + 1, requests[0].cmd;
      match Duration(cmd, p[start..], 0)
      case None => []
      case Some(t) =>
        DurationBounds(cmd, p[start..], 0);
        assert p[start..][..t] == p[start..start + t];
        [Reply(cmd, Responses(p[start..start + t])[..Acks(cmd)])] + SessionReplies(requests[1..], p[start + t..])
  }

  /** A run whose first command has been followed up to edge m of the peer. */
  lemma SessionStep(requests: seq<Request>, i: nat, peer: seq<PerPort>, e: nat, s: nat, m: nat)
    requires WellFormed(requests) && i < |requests|
    requires e + requests[i].idle + 1 == s <= m <= |peer|
    requires NotBefore(requests[i].cmd, peer[s..m])
    requires Finished(requests[i].cmd, peer[s..m]) || m == |peer|
    ensures var cmd := requests[i].cmd;
            SessionWave(requests[i..], peer[e..])
            == Idle(s - e) + CommandWave(cmd, peer[s..m])
               + if Finished(cmd, peer[s..m]) then SessionWave(requests[i + 1..], peer[m..]) else []
    ensures var cmd := requests[i].cmd;
            SessionReplies(requests[i..], peer[e..])
            == if Finished(cmd, peer[s..m])
               then [Reply(cmd, Responses(peer[s..m])[..Acks(cmd)])] + SessionReplies(requests[i + 1..], peer[m..])
               else []
  {
    hide Readies, Responses, CommandWave, TotalBeats;
    var reqs, rest, cmd := requests[i..], peer[s..], requests[i].cmd;
    assert peer[e..][s - e..] == rest;
    assert reqs[0] == requests[i] && reqs[1..] == requests[i + 1..];
    forall u | 0 <= u < m - s ensures !Finished(cmd, rest[..u]) {
      assert rest[..u] == peer[s..m][..u];
    }
    assert rest[..m - s] == peer[s..m];
    DurationIsLeast(cmd, rest, 0, m - s);
    if Finished(cmd, peer[s..m]) {
      assert peer[e..][s - e..m - e] == peer[s..m];
      assert peer[e..][m - e..] == peer[m..];
    } else {
      assert rest == peer[s..m];
    }
  }
}
