/** The burst masters of the test benches (tl_c_master with 16 data fields, tl_uh_master with 4):
    one process that turns each command into handshakes with a peer that may stall at will. */
module BurstMaster {
  import opened Common
  import opened TileLink
  import opened BurstCommands
  import opened BurstFields
  import opened BurstLaws

  // ---------------------------------------------------------------- following a command

  /** A command followed from edge e to `edge`: what the peer has shown, and the wave so far. */
  ghost predicate Followed(cmd: Command, peer: seq<PerPort>, e: nat, edge: nat, before: seq<HostPort>,
                           wave: seq<HostPort>, ready: nat, responses: seq<Word>)
    requires cmd.dat != [] && e <= edge <= |peer|
  {
    var seen := peer[e..edge];
    && ready == Readies(seen) && responses == Responses(seen)
    && wave == before + CommandWave(cmd, seen) && NotBefore(cmd, seen)
  }

  lemma FollowedStarts(cmd: Command, peer: seq<PerPort>, e: nat, wave: seq<HostPort>)
    requires cmd.dat != [] && e <= |peer|
    ensures Followed(cmd, peer, e, e, wave, wave, 0, [])
    ensures Reply(cmd, []) == cmd
  {
    assert peer[e..e] == [];
    assert Reply(cmd, []).dat == cmd.dat;
  }

  lemma FinishedIs(cmd: Command, seen: seq<PerPort>)
    requires cmd.dat != []
    ensures Finished(cmd, seen) == Over(cmd, Readies(seen), |Responses(seen)|)
  {
  }

  /** One more rising edge: what it adds to the counts and to the wave. */
  lemma FollowedStep(cmd: Command, peer: seq<PerPort>, e: nat, edge: nat, before: seq<HostPort>,
                     wave: seq<HostPort>, ready: nat, responses: seq<Word>)
    requires cmd.dat != [] && e <= edge < |peer|
    requires Followed(cmd, peer, e, edge, before, wave, ready, responses) && !Over(cmd, ready, |responses|)
    ensures Followed(cmd, peer, e, edge + 1, before, wave + [HostAt(cmd, ready, |responses|)],
                     ready + (if peer[edge].aReady then 1 else 0),
                     responses + if peer[edge].dValid then [peer[edge].dData] else [])
  {
    hide CommandWave, Readies, Responses, HostAt, Finished;
    var seen, per := peer[e..edge], peer[edge];
    assert peer[e..edge + 1] == seen + [per];
    CommandStep(cmd, seen, per);
    forall t | 0 <= t < |seen + [per]| ensures !Finished(cmd, (seen + [per])[..t]) {
      assert (seen + [per])[..t] == seen[..t];
      FinishedIs(cmd, seen);
      assert seen[..|seen|] == seen;
    }
    ConcatSnoc(before, CommandWave(cmd, seen), HostAt(cmd, ready, |responses|));
  }

  lemma FollowedSoFar(cmd: Command, peer: seq<PerPort>, e: nat, edge: nat, before: seq<HostPort>,
                      wave: seq<HostPort>, ready: nat, responses: seq<Word>)
    requires cmd.dat != [] && e <= edge <= |peer|
    requires Followed(cmd, peer, e, edge, before, wave, ready, responses)
    ensures wave == before + CommandWave(cmd, peer[e..edge]) && NotBefore(cmd, peer[e..edge])
    ensures Finished(cmd, peer[e..edge]) == Over(cmd, ready, |responses|)
    ensures responses == Responses(peer[e..edge])
  {
  }

  lemma ReplyOneMore(cmd: Command, responses: seq<Word>, data: Word)
    requires !cmd.IsPut()
    ensures var reply := Reply(cmd, responses);
            Reply(cmd, responses + [data])
            == if |responses| < |cmd.dat| then reply.(dat := reply.dat[|responses| := data]) else reply
  {
    var reply := Reply(cmd, responses);
    var updated := if |responses| < |cmd.dat| then reply.dat[|responses| := data] else reply.dat;
    assert Reply(cmd, responses + [data]).dat == updated;
  }

  lemma HasData(requests: seq<Request>, i: nat)
    requires WellFormed(requests) && i < |requests|
    ensures requests[i].cmd.dat != []
  {
  }

  // ---------------------------------------------------------------- following a run

  lemma Regroup<T>(a: seq<T>, b: seq<T>, c: seq<T>, d: seq<T>)
    ensures a + (b + c + d) == a + b + c + d
    ensures a + (b + c) == a + b + c
  {
  }

  /** A run followed as far as the i-th command and the given edge: what is still to come. */
  ghost predicate RunSoFar(requests: seq<Request>, peer: seq<PerPort>, i: nat, edge: nat,
                           wave: seq<HostPort>, replies: seq<Command>)
    requires WellFormed(requests) && i <= |requests| && edge <= |peer|
  {
    && SessionWave(requests, peer) == wave + SessionWave(requests[i..], peer[edge..])
    && SessionReplies(requests, peer) == replies + SessionReplies(requests[i..], peer[edge..])
  }

  lemma RunStarts(requests: seq<Request>, peer: seq<PerPort>)
    requires WellFormed(requests)
    ensures RunSoFar(requests, peer, 0, 0, [], [])
  {
    assert requests[0..] == requests && peer[0..] == peer;
  }

  lemma RunStep(requests: seq<Request>, peer: seq<PerPort>, i: nat, e: nat, s: nat, m: nat,
                wave: seq<HostPort>, replies: seq<Command>, reply: Command)
    requires WellFormed(requests) && i < |requests| && e + requests[i].idle + 1 == s <= m <= |peer|
    requires RunSoFar(requests, peer, i, e, wave, replies)
    requires NotBefore(requests[i].cmd, peer[s..m])
    requires if Finished(requests[i].cmd, peer[s..m])
             then reply == Reply(requests[i].cmd, Responses(peer[s..m])[..Acks(requests[i].cmd)]) else m == |peer|
    ensures var wave' := wave + Idle(s - e) + CommandWave(requests[i].cmd, peer[s..m]);
            if Finished(requests[i].cmd, peer[s..m]) then RunSoFar(requests, peer, i + 1, m, wave', replies + [reply])
            else SessionWave(requests, peer) == wave' && SessionReplies(requests, peer) == replies
  {
    SessionStep(requests, i, peer, e, s, m);
    hide Readies, Responses, CommandWave, SessionWave, SessionReplies, Finished, TotalBeats;
    Regroup(wave, Idle(s - e), CommandWave(requests[i].cmd, peer[s..m]), SessionWave(requests[i + 1..], peer[m..]));
    Regroup(replies, [reply], SessionReplies(requests[i + 1..], peer[m..]), []);
  }

  /** A run that ends before the next command has come, or that has no more commands. */
  lemma RunStarves(requests: seq<Request>, peer: seq<PerPort>, i: nat, edge: nat,
                   wave: seq<HostPort>, replies: seq<Command>)
    requires WellFormed(requests) && i <= |requests| && edge <= |peer|
    requires RunSoFar(requests, peer, i, edge, wave, replies)
    requires i == |requests| || |peer| - edge <= requests[i].idle
    ensures SessionWave(requests, peer) == wave + Idle(|peer| - edge)
    ensures SessionReplies(requests, peer) == replies
  {
  }

  /** The process is free for the i-th command; the run so far as a prefix of the whole and in its
      own terms. */
  ghost predicate Progress(requests: seq<Request>, peer: seq<PerPort>, i: nat, wave: seq<HostPort>,
                           replies: seq<Command>, starts: seq<nat>, ends: seq<nat>)
    requires WellFormed(requests)
  {
    && i == |replies| == |ends| <= |requests| && |wave| <= |peer|
    && RunSoFar(requests, peer, i, |wave|, wave, replies)
    && AllServed(requests, wave, peer, replies, starts, ends) && |wave| == FreeAt(ends, i)
  }

  lemma ProgressStarts(requests: seq<Request>, peer: seq<PerPort>)
    requires WellFormed(requests)
    ensures Progress(requests, peer, 0, [], [], [], [])
  {
    hide RunSoFar, AllServed;
    RunStarts(requests, peer);
    NoneServed(requests, [], peer);
  }

  lemma ProgressStarves(requests: seq<Request>, peer: seq<PerPort>, i: nat, before: seq<HostPort>,
                        wave: seq<HostPort>, replies: seq<Command>, starts: seq<nat>, ends: seq<nat>)
    requires WellFormed(requests) && Progress(requests, peer, i, before, replies, starts, ends)
    requires i == |requests| || |peer| - |before| <= requests[i].idle
    requires wave == before + Idle(|peer| - |before|)
    ensures wave == SessionWave(requests, peer) && replies == SessionReplies(requests, peer)
    ensures Ran(requests, wave, peer, replies, starts, ends)
  {
    hide RunSoFar, Served, Ran, SessionWave, SessionReplies;
    RunStarves(requests, peer, i, |before|, before, replies);
    RunEndsSilent(requests, before, wave, peer, replies, starts, ends);
  }

  lemma ProgressUnderWay(requests: seq<Request>, peer: seq<PerPort>, i: nat, before: seq<HostPort>,
                         wave: seq<HostPort>, replies: seq<Command>, starts: seq<nat>, ends: seq<nat>, s: nat)
    requires WellFormed(requests) && Progress(requests, peer, i, before, replies, starts, ends)
    requires i < |requests| && s == |before| + requests[i].idle + 1 && s <= |wave| == |peer|
    requires wave == before + Idle(s - |before|) + CommandWave(requests[i].cmd, peer[s..|wave|])
    requires NotBefore(requests[i].cmd, peer[s..|wave|]) && !Finished(requests[i].cmd, peer[s..|wave|])
    requires CarriedOut(requests[i].cmd, wave, peer, s, |wave|, false)
    ensures wave == SessionWave(requests, peer) && replies == SessionReplies(requests, peer)
    ensures Ran(requests, wave, peer, replies, starts + [s], ends)
  {
    hide RunSoFar, Served, Ran, SessionWave, SessionReplies, NotBefore, Finished, CarriedOut, CommandWave;
    hide AllServed, FreeAt, Idle;
    RunStep(requests, peer, i, |before|, s, |wave|, before, replies, requests[i].cmd);
    RunEndsUnderWay(requests, before, wave, peer, replies, starts, ends, s);
  }

  lemma ProgressServed(requests: seq<Request>, peer: seq<PerPort>, i: nat, before: seq<HostPort>,
                       wave: seq<HostPort>, replies: seq<Command>, starts: seq<nat>, ends: seq<nat>, s: nat,
                       reply: Command)
    requires WellFormed(requests) && Progress(requests, peer, i, before, replies, starts, ends)
    requires i < |requests| && s == |before| + requests[i].idle + 1 && s <= |wave| <= |peer|
    requires wave == before + Idle(s - |before|) + CommandWave(requests[i].cmd, peer[s..|wave|])
    requires NotBefore(requests[i].cmd, peer[s..|wave|]) && Finished(requests[i].cmd, peer[s..|wave|])
    requires reply == Reply(requests[i].cmd, Responses(peer[s..|wave|])[..Acks(requests[i].cmd)])
    requires CarriedOut(requests[i].cmd, wave, peer, s, |wave|, true)
    requires Answered(requests[i].cmd, reply, Taken(wave[s..|wave|], peer[s..|wave|]))
    ensures Progress(requests, peer, i + 1, wave, replies + [reply], starts + [s], ends + [|wave|])
  {
    hide RunSoFar, Served, NotBefore, Finished, CarriedOut, CommandWave, Answered, Reply, Acks, Taken, Responses;
    RunStep(requests, peer, i, |before|, s, |wave|, before, replies, reply);
    CommandServed(requests, before, wave, peer, replies, starts, ends, s, |wave|, reply);
  }

  /** What the write burst loop leaves on channel A from earlier turns. */
  ghost predicate Prepared(cmd: Command, beat: nat, a: ChannelA)
    requires cmd.dat != []
  {
    && a.opcode == PutBeat(cmd, 0).opcode && a.size == cmd.size && a.param == 0
    && (|cmd.dat| <= beat ==> a.data == cmd.dat[|cmd.dat| - 1])
    && (beat == TotalBeats(cmd.size) ==> a.(valid := true) == PutBeat(cmd, beat - 1))
  }

  class Master {
    /** What the peer shows at each rising edge. */
    const peer: seq<PerPort>
    /** Rising edges so far, and the host port as it was at each of them. */
    var edge: nat
    var wave: seq<HostPort>
    var host: HostPort

    ghost predicate Valid()
      reads this
    {
      edge <= |peer| && |wave| == edge
    }

    constructor (peer: seq<PerPort>)
      ensures Valid() && this.peer == peer && edge == 0 && wave == [] && host == HOST_NEW
    {
      this.peer := peer;
      edge, wave, host := 0, [], HOST_NEW;
    }

    /** Suspends the process until the next rising edge; `more` is false when the run ends first. */
    method WaitEdge() returns (more: bool)
      requires Valid()
      modifies this`edge, this`wave
      ensures Valid() && more == (old(edge) < |peer|)
      ensures more ==> edge == old(edge) + 1 && wave == old(wave) + [host]
      ensures !more ==> edge == old(edge) && wave == old(wave)
    {
      more := edge < |peer|;
      if more {
        wave := wave + [host];
        edge := edge + 1;
      }
    }

    method IdleEdges(n: nat) returns (more: bool)
      requires Valid() && host == HOST_NEW
      modifies this`edge, this`wave
      ensures Valid() && edge <= |peer| && |wave| == edge && more == (old(edge) + n <= |peer|)
      ensures edge == (if more then old(edge) + n else |peer|)
      ensures wave == old(wave) + Idle(edge - old(edge))
    {
      more := true;
      var i := 0;
      while i < n && more
        invariant Valid() && i <= n && edge == old(edge) + i
        invariant !more ==> edge == |peer| && i < n
        invariant wave == old(wave) + Idle(i)
        decreases n - i, more
      {
        more := WaitEdge();
        if more {
          i := i + 1;
        }
      }
    }

    /** The Get and atomic branch between two edges: `taken` of the responses shown are taken. */
    ghost predicate Getting(command: Command, e: nat, before: seq<HostPort>, ready: nat, responses: seq<Word>,
                            aDone: bool, taken: nat, cmd: Command)
      reads this
    {
      && Valid() && command.dat != [] && !command.IsPut() && e <= edge
      && Followed(command, peer, e, edge, before, wave, ready, responses)
      && taken == Min(|responses|, TotalBeats(command.size)) && aDone == (0 < ready)
      && host == HostAt(command, ready, |responses|)
      && cmd == Reply(command, responses[..taken])
    }

    /** One turn of the loop that takes the responses. */
    method GetTurn(command: Command, aDone: bool, dBeat: nat, cmd: Command,
                   ghost e: nat, ghost before: seq<HostPort>, ghost ready: nat, ghost responses: seq<Word>)
      returns (more: bool, aDone': bool, dBeat': nat, cmd': Command, ghost ready': nat, ghost responses': seq<Word>)
      requires Getting(command, e, before, ready, responses, aDone, dBeat, cmd) && dBeat < TotalBeats(command.size)
      modifies this
      ensures more ==> Getting(command, e, before, ready', responses', aDone', dBeat', cmd') && edge == old(edge) + 1
      ensures !more ==> edge == old(edge) == |peer| && wave == old(wave)
    {
      hide Followed, TotalBeats, Reply;
      aDone', dBeat', cmd', ready', responses' := aDone, dBeat, cmd, ready, responses;
      ghost var shown := wave;
      more := WaitEdge();
      if !more {
        return;
      }
      var per := peer[edge - 1];
      FollowedStep(command, peer, e, edge - 1, before, shown, ready, responses);
      assert responses[..dBeat] == responses && responses + [] == responses;
      if !aDone && per.aReady {
        aDone' := true;
        host := host.(a := host.a.(valid := false));
      }
      ready' := ready + if per.aReady then 1 else 0;
      if per.dValid {
        host := host.(dReady := false);
        ReplyOneMore(command, responses, per.dData);
        if dBeat < |cmd.dat| {
          cmd' := cmd.(dat := cmd.dat[dBeat := per.dData]);
        }
        responses' := responses + [per.dData];
        dBeat' := dBeat + 1;
        if dBeat' < TotalBeats(command.size) {
          host := host.(dReady := true);
        }
      }
      assert responses'[..dBeat'] == responses';
    }

    /** One turn of the loop after it, which waits for the request to be taken. */
    method AcceptTurn(command: Command, dBeat: nat, cmd: Command,
                      ghost e: nat, ghost before: seq<HostPort>, ghost ready: nat, ghost responses: seq<Word>)
      returns (more: bool, aDone': bool, ghost ready': nat, ghost responses': seq<Word>)
      requires Getting(command, e, before, ready, responses, false, dBeat, cmd) && dBeat == TotalBeats(command.size)
      modifies this
      ensures more ==> Getting(command, e, before, ready', responses', aDone', dBeat, cmd) && edge == old(edge) + 1
      ensures !more ==> edge == old(edge) == |peer| && wave == old(wave)
    {
      hide Followed, TotalBeats, Reply;
      aDone', ready', responses' := false, ready, responses;
      ghost var shown := wave;
      more := WaitEdge();
      if !more {
        return;
      }
      var per := peer[edge - 1];
      FollowedStep(command, peer, e, edge - 1, before, shown, ready, responses);
      if per.aReady {
        aDone' := true;
        host := host.(a := host.a.(valid := false));
      }
      ready' := ready + if per.aReady then 1 else 0;
      responses' := responses + if per.dValid then [per.dData] else [];
      assert responses'[..dBeat] == responses[..dBeat];
    }

    lemma GettingSoFar(command: Command, e: nat, before: seq<HostPort>, ready: nat, responses: seq<Word>,
                       aDone: bool, taken: nat, cmd: Command)
      requires Getting(command, e, before, ready, responses, aDone, taken, cmd)
      ensures e <= edge && wave == before + CommandWave(command, peer[e..edge]) && NotBefore(command, peer[e..edge])
      ensures Finished(command, peer[e..edge]) == (taken == TotalBeats(command.size) && aDone)
      ensures taken <= TotalBeats(command.size)
      ensures taken == TotalBeats(command.size) ==> cmd == Reply(command, Responses(peer[e..edge])[..Acks(command)])
    {
      hide Followed, HostAt, TotalBeats, Finished, NotBefore, CommandWave, Responses, Reply;
      FollowedSoFar(command, peer, e, edge, before, wave, ready, responses);
    }

    /** The Get and atomic branch of the process. */
    method Get(command: Command) returns (more: bool, cmd: Command)
      requires Valid() && command.dat != [] && !command.IsPut()
      modifies this
      ensures Valid() && old(edge) <= edge
      ensures wave == old(wave) + CommandWave(command, peer[old(edge)..edge])
      ensures more == Finished(command, peer[old(edge)..edge]) && NotBefore(command, peer[old(edge)..edge])
      ensures !more ==> edge == |peer|
      ensures more ==> cmd == Reply(command, Responses(peer[old(edge)..edge])[..Acks(command)])
      ensures CarriedOut(command, wave, peer, old(edge), edge, more)
      ensures more ==> Answered(command, cmd, Taken(wave[old(edge)..edge], peer[old(edge)..edge]))
    {
      cmd := command;
      var total := TotalBeats(cmd.size);
      host := HostPort(ChannelA(true, if cmd.isAtomic then cmd.opcode else OP_GET,
                                if cmd.isAtomic then cmd.param else 0,
                                cmd.size, cmd.adr, cmd.sel, cmd.dat[0]), true);
      var aDone, dBeat := false, 0;
      ghost var e, ready, responses: seq<Word> := edge, 0, [];
      FollowedStarts(command, peer, edge, wave);
      assert Getting(command, e, old(wave), ready, responses, aDone, dBeat, cmd);
      hide Getting, TotalBeats, Finished, NotBefore, CommandWave, Responses, Reply, Acks, CarriedOut, Answered, Taken;
      while dBeat < total
        invariant Valid() && Getting(command, e, old(wave), ready, responses, aDone, dBeat, cmd)
        decreases |peer| - edge
      {
        GettingSoFar(command, e, old(wave), ready, responses, aDone, dBeat, cmd);
        more, aDone, dBeat, cmd, ready, responses :=
          GetTurn(command, aDone, dBeat, cmd, e, old(wave), ready, responses);
        if !more {
          WaveCarriesOut(command, old(wave), wave, peer, e, edge);
          return;
        }
      }
      GettingSoFar(command, e, old(wave), ready, responses, aDone, dBeat, cmd);
      while !aDone
        invariant Valid() && Getting(command, e, old(wave), ready, responses, aDone, dBeat, cmd)
        decreases |peer| - edge
      {
        GettingSoFar(command, e, old(wave), ready, responses, aDone, dBeat, cmd);
        more, aDone, ready, responses := AcceptTurn(command, dBeat, cmd, e, old(wave), ready, responses);
        if !more {
          WaveCarriesOut(command, old(wave), wave, peer, e, edge);
          return;
        }
      }
      GettingSoFar(command, e, old(wave), ready, responses, aDone, dBeat, cmd);
      WaveCarriesOut(command, old(wave), wave, peer, e, edge);
      FinishedAnswers(command, old(wave), wave, peer, e, edge);
      more := true;
    }

    /** The first half of a turn of the write burst loop: what it puts on channel A. */
    method Drive(cmd: Command, beat: nat, total: nat, currentAddr: Address, ghost ready: nat, ghost valid: nat)
      requires cmd.dat != [] && cmd.IsPut() && beat <= total == TotalBeats(cmd.size)
      requires currentAddr == Plus(cmd.adr, 4 * beat) && Prepared(cmd, beat, host.a)
      modifies this`host
      requires beat == Min(ready, total) && host.dReady == (valid == 0)
      ensures host == HostAt(cmd, ready, valid) && host.dReady == old(host.dReady)
      ensures Prepared(cmd, beat, host.a) && (beat < total ==> Prepared(cmd, beat + 1, host.a))
    {
      if beat < total {
        host := host.(a := host.a.(valid := true, address := currentAddr, mask := cmd.sel));
        if beat < |cmd.dat| {
          host := host.(a := host.a.(data := cmd.dat[beat]));
        }
      } else {
        host := host.(a := host.a.(valid := false));
      }
    }

    /** The write burst loop between two turns. */
    ghost predicate Putting(cmd: Command, e: nat, before: seq<HostPort>, ready: nat, responses: seq<Word>,
                            beat: nat, currentAddr: Address, dDone: bool)
      reads this
    {
      && Valid() && cmd.dat != [] && cmd.IsPut() && e <= edge
      && Followed(cmd, peer, e, edge, before, wave, ready, responses)
      && beat == Min(ready, TotalBeats(cmd.size)) && dDone == (0 < |responses|)
      && currentAddr == Plus(cmd.adr, 4 * beat)
      && host.dReady == !dDone && Prepared(cmd, beat, host.a)
    }

    /** One turn of the write burst loop; ready and responses are what the peer has shown so far. */
    method PutTurn(cmd: Command, beat: nat, currentAddr: Address, dDone: bool,
                   ghost e: nat, ghost before: seq<HostPort>, ghost ready: nat, ghost responses: seq<Word>)
      returns (more: bool, beat': nat, currentAddr': Address, dDone': bool, ghost ready': nat,
        ghost responses': seq<Word>)
      requires Putting(cmd, e, before, ready, responses, beat, currentAddr, dDone)
      requires beat < TotalBeats(cmd.size) || !dDone
      modifies this
      ensures more ==> Putting(cmd, e, before, ready', responses', beat', currentAddr', dDone') && edge == old(edge) + 1
      ensures !more ==> edge == old(edge) == |peer| && wave == old(wave)
    {
      hide Followed, Prepared, HostAt, Plus, TotalBeats;
      beat', currentAddr', dDone', ready', responses' := beat, currentAddr, dDone, ready, responses;
      var total := TotalBeats(cmd.size);
      Drive(cmd, beat, total, currentAddr, ready, |responses|);
      ghost var shown := wave;
      more := WaitEdge();
      if !more {
        return;
      }
      var per := peer[edge - 1];
      FollowedStep(cmd, peer, e, edge - 1, before, shown, ready, responses);
      ready' := ready + if per.aReady then 1 else 0;
      responses' := responses + if per.dValid then [per.dData] else [];
      if beat < total && per.aReady {
        PlusPlus(cmd.adr, 4 * beat, 4);
        beat' := beat + 1;
        currentAddr' := Plus(currentAddr, 4);
      }
      if !dDone && per.dValid {
        dDone' := true;
        host := host.(dReady := false);
      }
    }

    lemma PuttingSoFar(cmd: Command, e: nat, before: seq<HostPort>, ready: nat, responses: seq<Word>,
                       beat: nat, currentAddr: Address, dDone: bool)
      requires Putting(cmd, e, before, ready, responses, beat, currentAddr, dDone)
      ensures e <= edge && wave == before + CommandWave(cmd, peer[e..edge]) && NotBefore(cmd, peer[e..edge])
      ensures Finished(cmd, peer[e..edge]) == (beat == TotalBeats(cmd.size) && dDone)
      ensures beat <= TotalBeats(cmd.size)
    {
      hide Followed, Prepared, HostAt, Plus, TotalBeats, Finished, NotBefore, CommandWave;
      FollowedSoFar(cmd, peer, e, edge, before, wave, ready, responses);
    }

    /** The write burst branch of the process. */
    method Put(cmd: Command) returns (more: bool)
      requires Valid() && cmd.dat != [] && cmd.IsPut()
      modifies this
      ensures Valid() && old(edge) <= edge
      ensures wave == old(wave) + CommandWave(cmd, peer[old(edge)..edge])
      ensures more == Finished(cmd, peer[old(edge)..edge]) && NotBefore(cmd, peer[old(edge)..edge])
      ensures !more ==> edge == |peer|
      ensures CarriedOut(cmd, wave, peer, old(edge), edge, more)
    {
      var total := TotalBeats(cmd.size);
      var beat, currentAddr := 0, cmd.adr;
      host := HostPort(host.a.(opcode := if cmd.sel == ALL_LANES then OP_PUT_FULL_DATA else OP_PUT_PARTIAL_DATA,
                               size := cmd.size, param := 0), true);
      var dDone := false;
      ghost var e, ready, responses: seq<Word> := edge, 0, [];
      FollowedStarts(cmd, peer, edge, wave);
      assert Putting(cmd, e, old(wave), ready, responses, beat, currentAddr, dDone);
      hide Putting, TotalBeats, Finished, NotBefore, CommandWave, CarriedOut;
      while beat < total || !dDone
        invariant Valid() && Putting(cmd, e, old(wave), ready, responses, beat, currentAddr, dDone)
        decreases |peer| - edge
      {
        PuttingSoFar(cmd, e, old(wave), ready, responses, beat, currentAddr, dDone);
        more, beat, currentAddr, dDone, ready, responses :=
          PutTurn(cmd, beat, currentAddr, dDone, e, old(wave), ready, responses);
        if !more {
          WaveCarriesOut(cmd, old(wave), wave, peer, e, edge);
          return;
        }
      }
      PuttingSoFar(cmd, e, old(wave), ready, responses, beat, currentAddr, dDone);
      WaveCarriesOut(cmd, old(wave), wave, peer, e, edge);
      more := true;
    }

    /** The two branches of the process. */
    method Execute(command: Command) returns (more: bool, cmd: Command)
      requires Valid() && command.dat != []
      modifies this
      ensures Valid() && old(edge) <= edge <= |peer| && |wave| == edge
      ensures wave == old(wave) + CommandWave(command, peer[old(edge)..edge])
      ensures more == Finished(command, peer[old(edge)..edge]) && NotBefore(command, peer[old(edge)..edge])
      ensures !more ==> edge == |peer|
      ensures more ==> cmd == Reply(command, Responses(peer[old(edge)..edge])[..Acks(command)])
      ensures CarriedOut(command, wave, peer, old(edge), edge, more)
      ensures more ==> Answered(command, cmd, Taken(wave[old(edge)..edge], peer[old(edge)..edge]))
    {
      hide Readies, Responses, CommandWave, TotalBeats, CarriedOut, Taken;
      cmd := command;
      if !cmd.isWrite || cmd.isAtomic {
        more, cmd := Get(cmd);
      } else {
        more := Put(cmd);
      }
    }

    /** The process: one command after another until the run or the messages end. */
    method P0(requests: seq<Request>) returns (replies: seq<Command>, ghost starts: seq<nat>, ghost ends: seq<nat>)
      requires Valid() && edge == 0 && wave == [] && WellFormed(requests)
      modifies this
      ensures Valid() && edge == |peer|
      ensures wave == SessionWave(requests, peer)
      ensures replies == SessionReplies(requests, peer)
      ensures Ran(requests, wave, peer, replies, starts, ends)
    {
      hide *;
      host := HOST_NEW;
      replies, starts, ends := [], [], [];
      ProgressStarts(requests, peer);
      var i := 0;
      while i < |requests|
        invariant 0 <= i <= |requests| && edge <= |peer| && |wave| == edge && host == HOST_NEW
        invariant Progress(requests, peer, i, wave, replies, starts, ends)
      {
        ghost var before := wave;
        var more := IdleEdges(requests[i].idle + 1);
        if !more {
          ProgressStarves(requests, peer, i, before, wave, replies, starts, ends);
          return;
        }
        ghost var s := edge;
        var cmd;
        HasData(requests, i);
        more, cmd := Execute(requests[i].cmd);
        if !more {
          ProgressUnderWay(requests, peer, i, before, wave, replies, starts, ends, s);
          starts := starts + [s];
          return;
        }
        ProgressServed(requests, peer, i, before, wave, replies, starts, ends, s, cmd);
        replies, starts, ends := replies + [cmd], starts + [s], ends + [edge];
        host := HOST_NEW;
        i := i + 1;
      }
      ghost var before := wave;
      var more := IdleEdges(|peer| - edge);
      ProgressStarves(requests, peer, i, before, wave, replies, starts, ends);
    }
  }
}
