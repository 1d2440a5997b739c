/** A word memory behind the burst master: it takes requests and gives responses as late as it
    likes, and every run against it is a run of a plain sequential memory. */
module BurstMemory {
  import opened Common
  import opened Wrappers
  import opened TileLink
  import opened BurstCommands
  import opened BurstLaws

  type Words = map<nat, Word>

  function WordIndex(a: Address): nat {
    a / 4
  }

  function Peek(words: Words, i: nat): Word {
    if i in words then words[i] else ZERO_WORD
  }

  function Poke(words: Words, a: ChannelA): Words {
    words[WordIndex(a.address) := Merge(Peek(words, WordIndex(a.address)), a.data, a.mask)]
  }

  lemma PokePeek(words: Words, a: ChannelA, i: nat)
    ensures Peek(Poke(words, a), i)
            == if i == WordIndex(a.address) then Merge(Peek(words, i), a.data, a.mask) else Peek(words, i)
  {
  }

  // ---------------------------------------------------------------- the memory as a bus peer

  /** What an atomic request makes of the words: any function. */
  type Alu = (Words, ChannelA) -> Words

  /** Its arithmetic, its words, the responses it owes, and the beats still to come of the write
      burst under way. */
  datatype Memory = Memory(alu: Alu, words: Words, owed: seq<Word>, left: nat)

  function ReadBurst(words: Words, a: Address, n: nat): (data: seq<Word>)
    ensures |data| == n
  {
    seq(n, k requires 0 <= k => Peek(words, WordIndex(Plus(a, 4 * k))))
  }

  /** A request is accepted: a Get or atomic is answered with the words as they were, a Put burst with
      one response after its last beat. */
  function Serve(m: Memory, a: ChannelA): Memory {
    if a.opcode == OP_GET then m.(owed := m.owed + ReadBurst(m.words, a.address, TotalBeats(a.size)))
    else if a.opcode == OP_PUT_FULL_DATA || a.opcode == OP_PUT_PARTIAL_DATA then
      var left := (if m.left == 0 then TotalBeats(a.size) else m.left) - 1;
      Memory(m.alu, Poke(m.words, a), m.owed + if left == 0 then [ZERO_WORD] else [], left)
    else
      m.(words := m.alu(m.words, a), owed := m.owed + ReadBurst(m.words, a.address, TotalBeats(a.size)))
  }

  function ServeAll(m: Memory, requests: seq<ChannelA>): Memory {
    if requests == [] then m
    else Serve(ServeAll(m, requests[..|requests| - 1]), requests[|requests| - 1])
  }

  /** The memory after one rising edge at which it showed per to a host showing host. */
  function Clocked(m: Memory, host: HostPort, per: PerPort): Memory {
    var given := if host.dReady && per.dValid && m.owed != [] then m.(owed := m.owed[1..]) else m;
    if host.a.valid && per.aReady then Serve(given, host.a) else given
  }

  function After(m: Memory, w: seq<HostPort>, p: seq<PerPort>): Memory
    requires |w| == |p|
  {
    if p == [] then m else Clocked(After(m, w[..|p| - 1], p[..|p| - 1]), w[|p| - 1], p[|p| - 1])
  }

  /** The peer is this memory: it is ready and valid when it likes, but the response it shows is
      the first one it owes. */
  predicate Obeys(m: Memory, w: seq<HostPort>, p: seq<PerPort>)
    requires |w| == |p|
  {
    p == [] ||
    (var n := |p| - 1;
     && Obeys(m, w[..n], p[..n])
     && (p[n].dValid ==> var q := After(m, w[..n], p[..n]); q.owed != [] && p[n].dData == q.owed[0]))
  }

  lemma {:induction false} ObeysConcat(m: Memory, w: seq<HostPort>, p: seq<PerPort>, w': seq<HostPort>,
    p': seq<PerPort>)
    requires |w| == |p| && |w'| == |p'|
    ensures After(m, w + w', p + p') == After(After(m, w, p), w', p')
    ensures Obeys(m, w + w', p + p') <==> Obeys(m, w, p) && Obeys(After(m, w, p), w', p')
  {
    if p' == [] {
      assert w + w' == w && p + p' == p;
    } else {
      var n := |p'| - 1;
      ObeysConcat(m, w, p, w'[..n], p'[..n]);
      assert (w + w')[..|w| + n] == w + w'[..n];
      assert (p + p')[..|p| + n] == p + p'[..n];
    }
  }

  lemma ServeOwes(m: Memory, given: seq<Word>, a: ChannelA)
    ensures Serve(m.(owed := given + m.owed), a)
            == Serve(m, a).(owed := given + Serve(m, a).owed)
  {
    if a.opcode != OP_PUT_FULL_DATA && a.opcode != OP_PUT_PARTIAL_DATA {
      ConcatAssoc(given, m.owed, ReadBurst(m.words, a.address, TotalBeats(a.size)));
    } else {
      ConcatAssoc(given, m.owed, [ZERO_WORD]);
      assert given + m.owed + [] == given + m.owed && m.owed + [] == m.owed;
    }
  }

  /** One rising edge moves the first response owed to those taken, and adds what a request calls for. */
  lemma ClockedConserves(q: Memory, taken: seq<Word>, host: HostPort, per: PerPort)
    requires per.dValid ==> q.owed != [] && per.dData == q.owed[0]
    ensures var q', called := Clocked(q, host, per), q.(owed := taken + q.owed);
            var taken' := taken + if host.dReady && per.dValid then [per.dData] else [];
            (if host.a.valid && per.aReady then Serve(called, host.a) else called) == q'.(owed := taken' + q'.owed)
  {
    var takes := host.dReady && per.dValid;
    var given := if takes then q.(owed := q.owed[1..]) else q;
    var taken' := taken + if takes then [per.dData] else [];
    assert taken' + given.owed == taken + q.owed by {
      if takes {
        assert q.owed == [per.dData] + q.owed[1..];
        ConcatAssoc(taken, [per.dData], q.owed[1..]);
      }
    }
    if host.a.valid && per.aReady {
      ServeOwes(given, taken', host.a);
    }
  }

  /** Conservation: what the accepted requests call for is what was taken and what is still owed. */
  lemma {:induction false} MemoryConserves(m: Memory, w: seq<HostPort>, p: seq<PerPort>)
    requires |w| == |p| && Obeys(m, w, p)
    ensures ServeAll(m, Accepted(w, p)) == After(m, w, p).(owed := Taken(w, p) + After(m, w, p).owed)
  {
    if p == [] {
      assert [] + m.owed == m.owed;
      return;
    }
    hide *;
    var n := |p| - 1;
    var host, per, q := w[n], p[n], After(m, w[..n], p[..n]);
    assert w == w[..n] + [host] && p == p[..n] + [per];
    AfterSnoc(m, w[..n], p[..n], host, per);
    MemoryConserves(m, w[..n], p[..n]);
    HandshakesSnoc(w[..n], p[..n], host, per);
    ClockedConserves(q, Taken(w[..n], p[..n]), host, per);
    ServeAllSnoc(m, Accepted(w[..n], p[..n]), host.a);
    assert Accepted(w[..n], p[..n]) + [] == Accepted(w[..n], p[..n]);
  }

  lemma AfterSnoc(m: Memory, w: seq<HostPort>, p: seq<PerPort>, host: HostPort, per: PerPort)
    requires |w| == |p|
    ensures After(m, w + [host], p + [per]) == Clocked(After(m, w, p), host, per)
    ensures Obeys(m, w + [host], p + [per]) <==>
            Obeys(m, w, p) && (per.dValid ==> After(m, w, p).owed != [] && per.dData == After(m, w, p).owed[0])
  {
    hide Clocked;
    assert (w + [host])[..|w|] == w && (p + [per])[..|p|] == p;
  }

  lemma ServeAllSnoc(m: Memory, requests: seq<ChannelA>, a: ChannelA)
    ensures ServeAll(m, requests + [a]) == Serve(ServeAll(m, requests), a)
  {
    hide Serve;
    assert (requests + [a])[..|requests|] == requests;
  }

  // ---------------------------------------------------------------- the sequential memory

  /** The words after the first k beats of a Put. */
  function Written(words: Words, cmd: Command, k: nat): Words
    requires cmd.dat != []
  {
    if k == 0 then words else Poke(Written(words, cmd, k - 1), PutBeat(cmd, k - 1))
  }

  /** One command carried out at once: the words after it, and its reply. */
  function WordsAfter(alu: Alu, words: Words, cmd: Command): Words
    requires cmd.dat != []
  {
    if cmd.IsPut() then Written(words, cmd, TotalBeats(cmd.size))
    else if cmd.isAtomic && cmd.opcode != OP_GET then alu(words, GetBeat(cmd))
    else words
  }

  function ReplyFrom(words: Words, cmd: Command): Command {
    Reply(cmd, ReadBurst(words, cmd.adr, TotalBeats(cmd.size)))
  }

  function FinalWords(alu: Alu, words: Words, requests: seq<Request>): Words
    requires WellFormed(requests)
    decreases requests
  {
    if requests == [] then words else FinalWords(alu, WordsAfter(alu, words, requests[0].cmd), requests[1..])
  }

  function AllReplies(alu: Alu, words: Words, requests: seq<Request>): seq<Command>
    requires WellFormed(requests)
    decreases requests
  {
    if requests == [] then []
    else [ReplyFrom(words, requests[0].cmd)] + AllReplies(alu, WordsAfter(alu, words, requests[0].cmd), requests[1..])
  }

  /** An atomic carries an opcode of its own and not that of a Put. */
  predicate Proper(cmd: Command) {
    cmd.isAtomic ==> cmd.opcode != OP_PUT_FULL_DATA && cmd.opcode != OP_PUT_PARTIAL_DATA
  }

  predicate AllProper(requests: seq<Request>) {
    forall i :: 0 <= i < |requests| ==> Proper(requests[i].cmd)
  }

  /** The memory after the first k beats of a Put that found it idle. */
  function Midway(alu: Alu, words: Words, cmd: Command, k: nat): Memory
    requires cmd.dat != [] && k <= TotalBeats(cmd.size)
  {
    var n := TotalBeats(cmd.size);
    Memory(alu, Written(words, cmd, k), if k == n then [ZERO_WORD] else [], if k == 0 then 0 else n - k)
  }

  lemma ServeBeat(alu: Alu, words: Words, cmd: Command, k: nat)
    requires cmd.dat != [] && cmd.IsPut() && k < TotalBeats(cmd.size)
    ensures Serve(Midway(alu, words, cmd, k), PutBeat(cmd, k)) == Midway(alu, words, cmd, k + 1)
  {
    hide Poke, TotalBeats;
  }

  lemma {:induction false} ServePut(alu: Alu, words: Words, cmd: Command, k: nat)
    requires cmd.dat != [] && cmd.IsPut() && k <= TotalBeats(cmd.size)
    ensures ServeAll(Memory(alu, words, [], 0), BeatsUpTo(cmd, k)) == Midway(alu, words, cmd, k)
  {
    if k > 0 {
      hide PutBeat, Serve, TotalBeats;
      ServePut(alu, words, cmd, k - 1);
      ServeBeat(alu, words, cmd, k - 1);
      assert BeatsUpTo(cmd, k)[..k - 1] == BeatsUpTo(cmd, k - 1);
    }
  }

  /** One command against the stalling memory does what it does to the sequential one. */
  lemma CommandRefines(alu: Alu, words: Words, cmd: Command, p: seq<PerPort>)
    requires cmd.dat != [] && Proper(cmd) && Finished(cmd, p)
    requires Obeys(Memory(alu, words, [], 0), CommandWave(cmd, p), p)
    ensures After(Memory(alu, words, [], 0), CommandWave(cmd, p), p) == Memory(alu, WordsAfter(alu, words, cmd), [], 0)
    ensures Reply(cmd, Responses(p)[..Acks(cmd)]) == ReplyFrom(words, cmd)
  {
    var m, w := Memory(alu, words, [], 0), CommandWave(cmd, p);
    MemoryConserves(m, w, p);
    CommandHandshakes(cmd, p);
    hide Accepted, Taken, After, Obeys, CommandWave, Readies, Responses, TotalBeats;
    var taken := Responses(p)[..Acks(cmd)];
    var served := ServeAll(m, BeatsUpTo(cmd, BeatCount(cmd)));
    assert taken + After(m, w, p).owed == served.owed;
    if cmd.IsPut() {
      ServePut(alu, words, cmd, TotalBeats(cmd.size));
    } else {
      assert BeatsUpTo(cmd, 1)[..0] == [];
      assert ServeAll(m, []) == m;
      assert served == Serve(m, GetBeat(cmd));
      assert [] + ReadBurst(words, cmd.adr, TotalBeats(cmd.size)) == ReadBurst(words, cmd.adr, TotalBeats(cmd.size));
    }
    assert |served.owed| == |taken|;
    assert served.owed[..|taken|] == taken;
  }

  lemma {:induction false} IdleLeaves(m: Memory, p: seq<PerPort>)
    ensures After(m, Idle(|p|), p) == m
  {
    if p != [] {
      IdleLeaves(m, p[..|p| - 1]);
      assert Idle(|p|)[..|p| - 1] == Idle(|p| - 1);
    }
  }

  /** Refinement: over any run, with any commands and messages at any time, against the memory
      stalling in any way, the replies are those of the sequential memory; and when every command
      has its reply, the memory holds what the sequential one holds and owes nothing. */
  lemma {:induction false} SessionRefines(alu: Alu, words: Words, requests: seq<Request>, p: seq<PerPort>)
    requires WellFormed(requests) && AllProper(requests)
    requires Obeys(Memory(alu, words, [], 0), SessionWave(requests, p), p)
    ensures var m := |SessionReplies(requests, p)|;
            m <= |requests| && SessionReplies(requests, p) == AllReplies(alu, words, requests[..m])
    ensures |SessionReplies(requests, p)| == |requests| ==>
              After(Memory(alu, words, [], 0), SessionWave(requests, p), p)
              == Memory(alu, FinalWords(alu, words, requests), [], 0)
    decreases requests
  {
    hide Accepted, Taken, After, Obeys, CommandWave, Readies, Responses, Reply, Acks, WordsAfter, ReplyFrom;
    var none := Memory(alu, words, [], 0);
    if requests == [] || |p| <= requests[0].idle {
      IdleLeaves(none, p);
    } else {
      var start, cmd := requests[0].idle + 1, requests[0].cmd;
      match Duration(cmd, p[start..], 0)
      case None =>
      case Some(t) =>
        DurationBounds(cmd, p[start..], 0);
        var served, later := p[start..start + t], p[start + t..];
        SessionSplit(alu, words, requests, p, t);
        var next := WordsAfter(alu, words, cmd);
        SessionRefines(alu, next, requests[1..], later);
        var m := |SessionReplies(requests, p)|;
        assert requests[..m][1..] == requests[1..][..m - 1];
        assert requests[..|requests|] == requests;
    }
  }

  /** The first command of a run, and the run from there. */
  lemma SessionSplit(alu: Alu, words: Words, requests: seq<Request>, p: seq<PerPort>, t: nat)
    requires WellFormed(requests) && AllProper(requests) && requests != [] && requests[0].idle + 1 + t <= |p|
    requires Obeys(Memory(alu, words, [], 0), SessionWave(requests, p), p)
    requires Duration(requests[0].cmd, p[requests[0].idle + 1..], 0) == Some(t)
    ensures var start, cmd := requests[0].idle + 1, requests[0].cmd;
            var later, next := p[start + t..], Memory(alu, WordsAfter(alu, words, cmd), [], 0);
            && Obeys(next, SessionWave(requests[1..], later), later)
            && After(Memory(alu, words, [], 0), SessionWave(requests, p), p)
              == After(next, SessionWave(requests[1..], later), later)
            && SessionReplies(requests, p) == [ReplyFrom(words, cmd)] + SessionReplies(requests[1..], later)
  {
    hide Accepted, Taken, After, Obeys, CommandWave, Readies, Responses, Reply, Acks, WordsAfter, ReplyFrom;
    var start, cmd := requests[0].idle + 1, requests[0].cmd;
    var none, idle, served, later := Memory(alu, words, [], 0), p[..start], p[start..start + t], p[start + t..];
    DurationBounds(cmd, p[start..], 0);
    assert p[start..][..t] == served;
    var w, w' := CommandWave(cmd, served), SessionWave(requests[1..], later);
    assert SessionWave(requests, p) == Idle(start) + w + w';
    assert SessionReplies(requests, p) == [Reply(cmd, Responses(served)[..Acks(cmd)])]
      + SessionReplies(requests[1..], later);
    hide SessionWave, SessionReplies, Duration;
    assert idle + served + later == p;
    ObeysConcat(none, Idle(start) + w, idle + served, w', later);
    ObeysConcat(none, Idle(start), idle, w, served);
    IdleLeaves(none, idle);
    CommandRefines(alu, words, cmd, served);
  }
}
