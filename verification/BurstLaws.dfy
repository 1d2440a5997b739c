/** What the waves of the burst masters mean: which requests and responses cross the bus, and when a
    command is over. */
module BurstLaws {
  import opened Common
  import opened Wrappers
  import opened TileLink
  import opened BurstCommands

  // ---------------------------------------------------------------- one command

  function BeatsUpTo(cmd: Command, k: nat): (beats: seq<ChannelA>)
    requires cmd.dat != []
    ensures |beats| == k
  {
    seq(k, i requires 0 <= i => Beat(cmd, i))
  }

  /** Whatever the peer does, the requests accepted are the command's beats in order, each once,
      and the responses taken are the first ones it gives, no more than are due. */
  lemma {:induction false} CommandHandshakes(cmd: Command, p: seq<PerPort>)
    requires cmd.dat != []
    ensures Accepted(CommandWave(cmd, p), p) == BeatsUpTo(cmd, Min(Readies(p), BeatCount(cmd)))
    ensures Taken(CommandWave(cmd, p), p) == Responses(p)[..Min(|Responses(p)|, Acks(cmd))]
  {
    if p == [] {
      assert Min(0, BeatCount(cmd)) == 0 && Responses(p) == [];
    } else {
      var q, per := p[..|p| - 1], p[|p| - 1];
      var ready, given := Readies(q), Responses(q);
      assert p == q + [per];
      CommandStep(cmd, q, per);
      HandshakesSnoc(CommandWave(cmd, q), q, HostAt(cmd, ready, |given|), per);
      BeatsStep(cmd, ready);
      TakeStep(given, per.dData, Acks(cmd));
      HostShows(cmd, ready, |given|);
      hide *;
      CommandHandshakes(cmd, q);
    }
  }

  /** What one more edge adds to the wave and to the counts. */
  lemma CommandStep(cmd: Command, q: seq<PerPort>, per: PerPort)
    requires cmd.dat != []
    ensures var p := q + [per];
            CommandWave(cmd, p) == CommandWave(cmd, q) + [HostAt(cmd, Readies(q), |Responses(q)|)]
            && Readies(p) == Readies(q) + (if per.aReady then 1 else 0)
            && Responses(p) == Responses(q) + if per.dValid then [per.dData] else []
  {
    hide HostAt;
    assert (q + [per])[..|q|] == q;
  }

  lemma HostShows(cmd: Command, ready: nat, valid: nat)
    requires cmd.dat != []
    ensures var host := HostAt(cmd, ready, valid);
            host.a.valid == (ready < BeatCount(cmd)) && host.dReady == (valid < Acks(cmd))
            && (ready < BeatCount(cmd) ==> host.a == Beat(cmd, ready))
  {
  }

  lemma BeatsStep(cmd: Command, k: nat)
    requires cmd.dat != []
    ensures BeatsUpTo(cmd, k + 1) == BeatsUpTo(cmd, k) + [Beat(cmd, k)]
  {
    hide Beat;
  }

  lemma TakeStep(taken: seq<Word>, data: Word, n: nat)
    ensures (taken + [data])[..Min(|taken| + 1, n)] == taken[..Min(|taken|, n)] + if |taken| < n then [data] else []
    ensures taken + [] == taken
  {
  }

  lemma {:induction false} CountsGrow(p: seq<PerPort>, t: nat)
    requires t <= |p|
    ensures Readies(p[..t]) <= Readies(p) && Responses(p[..t]) <= Responses(p)
  {
    if t < |p| {
      CountsGrow(p[..|p| - 1], t);
      assert p[..|p| - 1][..t] == p[..t];
    } else {
      assert p[..t] == p;
    }
  }

  /** A command comes to its end just when the peer is ready once per beat and gives every
      response that is due, and it ends at the first edge at which both are so. */
  lemma CompletesIff(cmd: Command, p: seq<PerPort>)
    requires cmd.dat != []
    ensures Duration(cmd, p, 0).Some? <==> BeatCount(cmd) <= Readies(p) && Acks(cmd) <= |Responses(p)|
    ensures forall t | 0 <= t <= |p| ::
              Finished(cmd, p[..t]) <==> Duration(cmd, p, 0).Some? && Duration(cmd, p, 0).value <= t
  {
    var d := Duration(cmd, p, 0);
    DurationBounds(cmd, p, 0);
    assert p[..|p|] == p;
    forall t | 0 <= t <= |p| ensures Finished(cmd, p[..t]) <==> d.Some? && d.value <= t {
      if d.Some? && d.value <= t {
        CountsGrow(p[..t], d.value);
        assert p[..t][..d.value] == p[..d.value];
      }
    }
    assert Finished(cmd, p) <==> d.Some?;
  }

  // ---------------------------------------------------------------- whole runs

  function AllBeats(requests: seq<Request>): seq<ChannelA>
    requires WellFormed(requests)
  {
    if requests == [] then []
    else BeatsUpTo(requests[0].cmd, BeatCount(requests[0].cmd)) + AllBeats(requests[1..])
  }

  /** The replies when the responses taken are dealt out to the commands in order. */
  function Dealt(requests: seq<Request>, taken: seq<Word>): seq<Command>
    requires WellFormed(requests)
  {
    if requests == [] || |taken| < Acks(requests[0].cmd) then []
    else
      var n := Acks(requests[0].cmd);
      [Reply(requests[0].cmd, taken[..n])] + Dealt(requests[1..], taken[n..])
  }

  lemma AllBeatsFront(requests: seq<Request>, m: nat)
    requires WellFormed(requests) && 0 < m <= |requests|
    ensures AllBeats(requests[..m])
            == BeatsUpTo(requests[0].cmd, BeatCount(requests[0].cmd)) + AllBeats(requests[1..][..m - 1])
  {
    assert requests[..m][1..] == requests[1..][..m - 1];
  }

  lemma DealtFront(requests: seq<Request>, m: nat, mine: seq<Word>, others: seq<Word>)
    requires WellFormed(requests) && 0 < m <= |requests| && |mine| == Acks(requests[0].cmd)
    ensures Dealt(requests[..m], mine + others)
            == [Reply(requests[0].cmd, mine)] + Dealt(requests[1..][..m - 1], others)
  {
    assert requests[..m][1..] == requests[1..][..m - 1];
    assert (mine + others)[..|mine|] == mine && (mine + others)[|mine|..] == others;
  }

  lemma {:induction false} IdleHandshakes(p: seq<PerPort>)
    ensures Accepted(Idle(|p|), p) == [] && Taken(Idle(|p|), p) == []
  {
    if p != [] {
      IdleHandshakes(p[..|p| - 1]);
      assert Idle(|p|)[..|p| - 1] == Idle(|p| - 1);
    }
  }

  /** The handshakes of one command with the idle edges before it. */
  lemma ServedHandshakes(cmd: Command, p: seq<PerPort>, start: nat)
    requires cmd.dat != [] && start <= |p|
    ensures var w := Idle(start) + CommandWave(cmd, p[start..]);
            Accepted(w, p) == BeatsUpTo(cmd, Min(Readies(p[start..]), BeatCount(cmd)))
            && Taken(w, p) == Responses(p[start..])[..Min(|Responses(p[start..])|, Acks(cmd))]
  {
    hide Accepted, Taken, CommandWave;
    IdleHandshakes(p[..start]);
    CommandHandshakes(cmd, p[start..]);
    HandshakesConcat(Idle(start), p[..start], CommandWave(cmd, p[start..]), p[start..]);
    assert p[..start] + p[start..] == p;
  }

  /** How far into the beats of a command that is not over a run has come. */
  ghost predicate PartOf(part: seq<ChannelA>, requests: seq<Request>, m: nat)
    requires m <= |requests| && WellFormed(requests)
  {
    if m == |requests| then part == []
    else |part| <= BeatCount(requests[m].cmd) && part == BeatsUpTo(requests[m].cmd, |part|)
  }

  /** What holds of a run: see SessionHandshakes. */
  ghost predicate SessionLaw(requests: seq<Request>, p: seq<PerPort>, part: seq<ChannelA>)
    requires WellFormed(requests)
  {
    var m, w := |SessionReplies(requests, p)|, SessionWave(requests, p);
    && m <= |requests| && PartOf(part, requests, m)
    && Accepted(w, p) == AllBeats(requests[..m]) + part
    && SessionReplies(requests, p) == Dealt(requests[..m], Taken(w, p))
  }

  /** Over any run against any peer: every command that got its reply put each of its beats on
      the bus exactly once, in order, after those of the commands before it; the command under way
      has put there the first of its beats; and the replies hold the responses as dealt out. */
  lemma {:induction false} SessionHandshakes(requests: seq<Request>, p: seq<PerPort>)
    requires WellFormed(requests)
    ensures exists part :: SessionLaw(requests, p, part)
    decreases requests
  {
    hide Accepted, Taken, Readies, Responses, CommandWave, Beat, BeatCount, Reply, Acks;
    if requests == [] || |p| <= requests[0].idle {
      IdleHandshakes(p);
      assert SessionLaw(requests, p, []);
    } else {
      var start, cmd := requests[0].idle + 1, requests[0].cmd;
      match Duration(cmd, p[start..], 0)
      case None =>
        ServedHandshakes(cmd, p, start);
        assert SessionLaw(requests, p, Accepted(SessionWave(requests, p), p));
      case Some(t) =>
        DurationBounds(cmd, p[start..], 0);
        SessionHandshakes(requests[1..], p[start + t..]);
        var part :| SessionLaw(requests[1..], p[start + t..], part);
        SessionLawStep(requests, p, t, part);
    }
  }

  lemma SessionLawStep(requests: seq<Request>, p: seq<PerPort>, t: nat, part: seq<ChannelA>)
    requires WellFormed(requests) && requests != [] && requests[0].idle + 1 + t <= |p|
    requires Duration(requests[0].cmd, p[requests[0].idle + 1..], 0) == Some(t)
    requires SessionLaw(requests[1..], p[requests[0].idle + 1 + t..], part)
    ensures SessionLaw(requests, p, part)
  {
    hide Accepted, Taken, Readies, Responses, CommandWave, Beat, BeatCount, Reply, Acks, AllBeats, Dealt;
    var start, cmd := requests[0].idle + 1, requests[0].cmd;
    var served, later := p[..start + t], p[start + t..];
    assert served[start..] == p[start..start + t] == p[start..][..t];
    var w, w' := Idle(start) + CommandWave(cmd, served[start..]), SessionWave(requests[1..], later);
    assert SessionWave(requests, p) == w + w';
    var mine := Responses(p[start..][..t]);
    DurationBounds(cmd, p[start..], 0);
    assert SessionReplies(requests, p) == [Reply(cmd, mine[..Acks(cmd)])] + SessionReplies(requests[1..], later);
    hide SessionWave, SessionReplies, Duration, Idle;
    var m := |SessionReplies(requests, p)|;
    ServedHandshakes(cmd, served, start);
    HandshakesConcat(w, served, w', later);
    assert served + later == p;
    AllBeatsFront(requests, m);
    DealtFront(requests, m, Taken(w, served), Taken(w', later));
    ConcatAssoc(Accepted(w, served), AllBeats(requests[1..][..m - 1]), part);
  }
}
