/** The single-beat host model and the memory model, wired to each other: one clock, every process
    reading what the other drove before the edge. */
module LiteBus {
  import opened Common
  import opened TileLink

  const OP_ACCESS_ACK: Code := 0
  const OP_ACCESS_ACK_DATA: Code := 1

  datatype Command = Command(adr: Address, dat: Word, sel: Mask, isWrite: bool)

  // ---------------------------------------------------------------- vectors

  function And(a: Word, b: Word): (w: Word)
    requires |a| == |b|
    ensures |w| == |a|
  {
    seq(|a|, i requires 0 <= i < |a| => a[i] && b[i])
  }

  function Or(a: Word, b: Word): (w: Word)
    requires |a| == |b|
    ensures |w| == |a|
  {
    seq(|a|, i requires 0 <= i < |a| => a[i] || b[i])
  }

  function Not(a: Word): (w: Word)
    ensures |w| == |a|
  {
    seq(|a|, i requires 0 <= i < |a| => !a[i])
  }

  function Lane(b: bool): (w: Word)
    ensures |w| == 8 && forall i :: 0 <= i < 8 ==> w[i] == b
  {
    seq(8, _ => b)
  }

  /** masked_value: keeps the bytes of val whose bit in sel is set. */
  method MaskedValue(val: Word, sel: Mask) returns (r: Word)
    requires |val| == 32 && |sel| == 4
    ensures |r| == 32 && forall i :: 0 <= i < 32 ==> r[i] == (val[i] && sel[i / 8])
  {
    var mask: Word := Zeros(32);
    for i := 0 to |sel|
      invariant |mask| == 32
      invariant forall k :: 0 <= k < 8 * i ==> mask[k] == sel[k / 8]
    {
      mask := mask[..8 * i] + Lane(sel[i]) + mask[8 * (i + 1)..];
    }
    r := And(val, mask);
  }

  // ---------------------------------------------------------------- the memory

  /** The memory word an address selects: the one its offset lies in, around the size of the memory. */
  function Index(base: Address, sizeLog2: nat, adr: Address): (i: nat)
    ensures i < Pow2(sizeLog2)
    ensures 4 * i <= (adr - base) % 0x1_0000_0000 % (4 * Pow2(sizeLog2)) < 4 * i + 4
  {
    WordOfOffset((adr - base) % 0x1_0000_0000, Pow2(sizeLog2));
    ((adr - base) % 0x1_0000_0000) / 4 % Pow2(sizeLog2)
  }

  lemma WordOfOffset(offset: nat, words: nat)
    requires 0 < words
    ensures 4 * (offset / 4 % words) <= offset % (4 * words) < 4 * (offset / 4 % words) + 4
  {
    var q, r := offset / 4, offset % 4;
    var round, i := q / words, q % words;
    assert q == words * round + i;
    assert offset == (4 * words) * round + (4 * i + r);
    assert (4 * words) * round == round * (4 * words);
    QuotientIs(offset, 4 * words, round);
  }

  class Memory {
    const base: Address
    const sizeLog2: nat
    var mem: seq<Word>
    var dValid: bool
    var aReady: bool
    var dOpcode: Code
    var dSize: Code
    var dData: Word

    ghost predicate Valid()
      reads this
    {
      |mem| == Pow2(sizeLog2) && forall i :: 0 <= i < |mem| ==> |mem[i]| == 32
    }

    constructor (base: Address, sizeLog2: nat)
      ensures Valid() && this.base == base && this.sizeLog2 == sizeLog2
      ensures mem == seq(Pow2(sizeLog2), _ => ZERO_WORD) && !dValid && aReady
    {
      this.base, this.sizeLog2 := base, sizeLog2;
      mem := seq(Pow2(sizeLog2), _ => ZERO_WORD);
      dValid, aReady := false, true;
      dOpcode, dSize, dData := OP_ACCESS_ACK, 0, ZERO_WORD;
    }

    /** What the host sees before the next edge. */
    function Shown(): PerPort
      reads this
    {
      PerPort(aReady, dValid, dData)
    }

    /** One rising edge; host is what the host drove before it. */
    method RisingEdge(reset: bool, host: HostPort)
      requires Valid() && |host.a.mask| == 4 && |host.a.data| == 32
      modifies this
      ensures Valid()
      ensures reset ==> mem == seq(Pow2(sizeLog2), _ => ZERO_WORD) && !dValid && aReady
      ensures var accepts, i := !reset && old(aReady) && host.a.valid, Index(base, sizeLog2, host.a.address);
              && (!reset && !accepts ==>
                mem == old(mem) && dData == old(dData) && dOpcode == old(dOpcode) && dSize == old(dSize))
              && (accepts ==> dSize == host.a.size)
              && (accepts && host.a.opcode == 4 ==>
                mem == old(mem) && dData == old(mem)[i] && dOpcode == 1)
              && (accepts && host.a.opcode != 4 ==>
                    mem == old(mem)[i := Merge(old(mem)[i], host.a.data, host.a.mask)]
                    && dData == ZERO_WORD && dOpcode == 0)
      ensures var accepts, gives := old(aReady) && host.a.valid, old(dValid) && host.dReady;
              !reset ==>
                dValid == (accepts || (old(dValid) && !gives))
                && aReady == (!accepts && (old(aReady) || gives))
    {
      if reset {
        mem := seq(Pow2(sizeLog2), _ => ZERO_WORD);
        dValid, aReady := false, true;
        return;
      }
      var ready := aReady;
      if dValid && host.dReady {
        dValid, aReady := false, true;
      }
      if ready && host.a.valid {
        aReady, dValid := false, true;
        var i := Index(base, sizeLog2, host.a.address);
        if host.a.opcode == OP_GET {
          dOpcode, dData := OP_ACCESS_ACK_DATA, mem[i];
        } else {
          dOpcode, dData := OP_ACCESS_ACK, ZERO_WORD;
          var selected := MaskedValue(Not(Zeros(32)), host.a.mask);
          var data := MaskedValue(host.a.data, host.a.mask);
          var word := Or(And(mem[i], Not(selected)), data);
          assert word == Merge(mem[i], host.a.data, host.a.mask);
          mem := mem[i := word];
        }
        dSize := host.a.size;
      }
    }
  }

  // ---------------------------------------------------------------- what a command does

  function Request(cmd: Command): ChannelA {
    ChannelA(true, if !cmd.isWrite then OP_GET else if cmd.sel == ALL_LANES then OP_PUT_FULL_DATA
      else OP_PUT_PARTIAL_DATA,
             0, 2, cmd.adr, cmd.sel, cmd.dat)
  }

  predicate WellFormed(cmd: Command) {
    |cmd.sel| == 4 && |cmd.dat| == 32
  }

  /** The words of a plain memory after some commands, all bits zero at first. */
  function WordsAfter(base: Address, sizeLog2: nat, cmds: seq<Command>): (words: seq<Word>)
    ensures |words| == Pow2(sizeLog2)
  {
    if cmds == [] then seq(Pow2(sizeLog2), _ => ZERO_WORD)
    else
      var cmd, was := cmds[|cmds| - 1], WordsAfter(base, sizeLog2, cmds[..|cmds| - 1]);
      var i := Index(base, sizeLog2, cmd.adr);
      if cmd.isWrite then was[i := Merge(was[i], cmd.dat, cmd.sel)] else was
  }

  /** Bit b of word i by the history alone: it comes from the last write to that word that selects
      its byte lane, and is zero when there is none. */
  function LastWritten(base: Address, sizeLog2: nat, cmds: seq<Command>, i: nat, b: nat): bool {
    if cmds == [] then false
    else
      var cmd := cmds[|cmds| - 1];
      if cmd.isWrite && Index(base, sizeLog2, cmd.adr) == i && Bit(cmd.sel, b / 8) then Bit(cmd.dat, b)
      else LastWritten(base, sizeLog2, cmds[..|cmds| - 1], i, b)
  }

  /** Every byte keeps its value until a write selects it. */
  lemma {:induction false} WordsAreLastWritten(base: Address, sizeLog2: nat, cmds: seq<Command>, i: nat, b: nat)
    requires i < Pow2(sizeLog2) && b < 32
    ensures Bit(WordsAfter(base, sizeLog2, cmds)[i], b) == LastWritten(base, sizeLog2, cmds, i, b)
  {
    if cmds != [] {
      WordsAreLastWritten(base, sizeLog2, cmds[..|cmds| - 1], i, b);
      hide Index, Pow2;
    }
  }

  /** A write that gives bit b of the word at address a: to the same word, around the size of the
      memory, with the byte lane selected. */
  ghost predicate Sets(base: Address, sizeLog2: nat, cmd: Command, a: Address, b: nat) {
    && cmd.isWrite && Bit(cmd.sel, b / 8)
    && (cmd.adr - base) % 0x1_0000_0000 / 4 % Pow2(sizeLog2) == (a - base) % 0x1_0000_0000 / 4 % Pow2(sizeLog2)
  }

  /** The bit is v: the last write that gives it gives v, or there is none and v is zero. */
  ghost predicate LastSet(base: Address, sizeLog2: nat, cmds: seq<Command>, a: Address, b: nat, v: bool) {
    || (!v && forall j | 0 <= j < |cmds| :: !Sets(base, sizeLog2, cmds[j], a, b))
    || exists j | 0 <= j < |cmds| ::
         Sets(base, sizeLog2, cmds[j], a, b) && v == Bit(cmds[j].dat, b)
         && forall l | j < l < |cmds| :: !Sets(base, sizeLog2, cmds[l], a, b)
  }

  lemma LastSetSnoc(base: Address, sizeLog2: nat, before: seq<Command>, last: Command, a: Address, b: nat, v: bool)
    requires Sets(base, sizeLog2, last, a, b) ==> v == Bit(last.dat, b)
    requires !Sets(base, sizeLog2, last, a, b) ==> LastSet(base, sizeLog2, before, a, b, v)
    ensures LastSet(base, sizeLog2, before + [last], a, b, v)
  {
    hide Sets;
    var cmds := before + [last];
    if Sets(base, sizeLog2, last, a, b) {
      assert cmds[|before|] == last;
    } else if !(forall j | 0 <= j < |before| :: !Sets(base, sizeLog2, before[j], a, b)) {
      var j :| 0 <= j < |before| && Sets(base, sizeLog2, before[j], a, b) && v == Bit(before[j].dat, b)
               && forall l | j < l < |before| :: !Sets(base, sizeLog2, before[l], a, b);
      assert cmds[j] == before[j];
    }
  }

  lemma SameIndex(base: Address, sizeLog2: nat, cmd: Command, a: Address, b: nat)
    ensures Sets(base, sizeLog2, cmd, a, b) <==>
            cmd.isWrite && Index(base, sizeLog2, cmd.adr) == Index(base, sizeLog2, a) && Bit(cmd.sel, b / 8)
  {
  }

  lemma {:induction false} LastWrittenIsSet(base: Address, sizeLog2: nat, cmds: seq<Command>, a: Address, b: nat)
    ensures LastSet(base, sizeLog2, cmds, a, b, LastWritten(base, sizeLog2, cmds, Index(base, sizeLog2, a), b))
  {
    if cmds != [] {
      hide Sets, LastSet, Index, Bit, Pow2;
      var before, last := cmds[..|cmds| - 1], cmds[|cmds| - 1];
      LastWrittenIsSet(base, sizeLog2, before, a, b);
      SameIndex(base, sizeLog2, last, a, b);
      assert before + [last] == cmds;
      LastSetSnoc(base, sizeLog2, before, last, a, b,
                  LastWritten(base, sizeLog2, cmds, Index(base, sizeLog2, a), b));
    }
  }

  /** The k-th reply: a write comes back as it was, a read with every bit as it was last written. */
  ghost predicate Answers(base: Address, sizeLog2: nat, cmds: seq<Command>, k: nat, reply: Command)
    requires k < |cmds|
  {
    var cmd := cmds[k];
    && reply == cmd.(dat := reply.dat) && |reply.dat| == 32 && (cmd.isWrite ==> reply == cmd)
    && (!cmd.isWrite ==> forall b | 0 <= b < 32 :: LastSet(base, sizeLog2, cmds[..k], cmd.adr, b, reply.dat[b]))
  }

  lemma AnswersOne(base: Address, sizeLog2: nat, cmds: seq<Command>, k: nat, reply: Command)
    requires k < |cmds| && |reply.dat| == 32
    requires reply == if cmds[k].isWrite then cmds[k]
                      else cmds[k].(dat := WordsAfter(base, sizeLog2, cmds[..k])[Index(base, sizeLog2, cmds[k].adr)])
    ensures Answers(base, sizeLog2, cmds, k, reply)
  {
    hide LastWritten, WordsAfter, LastSet;
    var i := Index(base, sizeLog2, cmds[k].adr);
    if !cmds[k].isWrite {
      forall b | 0 <= b < 32 ensures LastSet(base, sizeLog2, cmds[..k], cmds[k].adr, b, reply.dat[b]) {
        WordsAreLastWritten(base, sizeLog2, cmds[..k], i, b);
        LastWrittenIsSet(base, sizeLog2, cmds[..k], cmds[k].adr, b);
      }
    }
  }

  /** The request carries the command out: its operation, four bytes, its address, lanes and data. */
  ghost predicate Asks(a: ChannelA, cmd: Command) {
    && a.valid && a.param == 0 && a.size == 2
    && a.opcode == (if !cmd.isWrite then 4 else if cmd.sel == [true, true, true, true] then 0 else 1)
    && a.address == cmd.adr && a.mask == cmd.sel && a.data == cmd.dat
  }

  function Requests(cmds: seq<Command>): (requests: seq<ChannelA>)
    ensures |requests| == |cmds|
  {
    seq(|cmds|, k requires 0 <= k < |cmds| => Request(cmds[k]))
  }

  lemma NothingYet(cmds: seq<Command>, gaps: seq<nat>)
    ensures cmds[..0] == [] && cmds[..|cmds|] == cmds && gaps[..|gaps|] == gaps
    ensures Accepted([], []) == Requests([]) && Taken([], []) == [] && Sum(gaps[..0]) == 0
  {
  }

  lemma RequestsAsk(cmds: seq<Command>)
    ensures forall k | 0 <= k < |cmds| :: Asks(Requests(cmds)[k], cmds[k])
  {
  }

  lemma RequestsStep(cmds: seq<Command>, k: nat)
    requires k < |cmds|
    ensures Requests(cmds[..k + 1]) == Requests(cmds[..k]) + [Request(cmds[k])]
  {
    hide Request;
  }

  lemma WordsAfterStep(base: Address, sizeLog2: nat, cmds: seq<Command>, k: nat)
    requires k < |cmds|
    ensures var cmd, was := cmds[k], WordsAfter(base, sizeLog2, cmds[..k]);
            var i := Index(base, sizeLog2, cmd.adr);
            WordsAfter(base, sizeLog2, cmds[..k + 1]) == if cmd.isWrite then was[i := Merge(was[i], cmd.dat, cmd.sel)]
              else was
  {
    hide Index, Merge;
    assert cmds[..k + 1][..k] == cmds[..k];
  }

  lemma SumStep(gaps: seq<nat>, k: nat)
    requires k < |gaps|
    ensures Sum(gaps[..k + 1]) == Sum(gaps[..k]) + gaps[k]
  {
    assert gaps[..k + 1][..k] == gaps[..k];
  }

  // ---------------------------------------------------------------- host and memory on one clock

  class System {
    const memory: Memory
    var host: HostPort
    /** What each side showed the other before each rising edge so far. */
    var wave: seq<HostPort>
    var shown: seq<PerPort>

    ghost predicate Valid()
      reads this, memory
    {
      && memory.Valid() && |wave| == |shown|
      && |host.a.mask| == 4 && |host.a.data| == 32
      && memory.aReady == !memory.dValid
      && forall i :: 0 <= i < |shown| ==> shown[i].aReady == !shown[i].dValid
    }

    /** No request is out and no response is waiting. */
    ghost predicate Quiet()
      reads this, memory
    {
      Valid() && host == HOST_NEW && !memory.dValid
    }

    constructor (base: Address, sizeLog2: nat)
      ensures Quiet() && fresh(memory) && wave == [] && shown == []
              && memory.base == base && memory.sizeLog2 == sizeLog2
      ensures memory.mem == WordsAfter(base, sizeLog2, [])
    {
      memory := new Memory(base, sizeLog2);
      host := HOST_NEW;
      wave, shown := [], [];
    }

    /** Suspends the host process until the next rising edge, which the memory sees too; returns
        what the memory showed before it. */
    method WaitEdge() returns (per: PerPort)
      requires Valid()
      modifies this`wave, this`shown, memory
      ensures wave == old(wave) + [host] && shown == old(shown) + [per] && per == old(memory.Shown())
      ensures Valid()
      ensures var accepts, i := per.aReady && host.a.valid, Index(memory.base, memory.sizeLog2, host.a.address);
              && memory.dValid == (accepts || (per.dValid && !host.dReady))
              && (accepts && host.a.opcode == OP_GET ==>
                memory.mem == old(memory.mem) && memory.dData == old(memory.mem)[i])
              && (accepts && host.a.opcode != OP_GET ==>
                    memory.mem == old(memory.mem)[i := Merge(old(memory.mem)[i], host.a.data, host.a.mask)])
              && (!accepts ==> memory.mem == old(memory.mem) && memory.dData == old(memory.dData))
    {
      per := memory.Shown();
      wave, shown := wave + [host], shown + [per];
      memory.RisingEdge(false, host);
    }

    /** Edges on which the host has no message. */
    method Idle(n: nat)
      requires Quiet()
      modifies this`wave, this`shown, memory
      ensures Quiet() && memory.mem == old(memory.mem) && |wave| == |shown| == old(|wave|) + n
      ensures Accepted(wave, shown) == Accepted(old(wave), old(shown))
              && Taken(wave, shown) == Taken(old(wave), old(shown))
    {
      hide Accepted, Taken, Index, Merge;
      for i := 0 to n
        invariant Quiet() && memory.mem == old(memory.mem) && |wave| == old(|wave|) + i
        invariant Accepted(wave, shown) == Accepted(old(wave), old(shown))
                  && Taken(wave, shown) == Taken(old(wave), old(shown))
      {
        HandshakesSnoc(wave, shown, host, memory.Shown());
        var per := WaitEdge();
      }
    }

    /** One turn of the host process after its message has come. The command is driven after one
        edge and is over two edges later; its request crosses the bus once and one response does. */
    method Perform(command: Command) returns (cmd: Command)
      requires Quiet() && WellFormed(command)
      modifies this, memory
      ensures Quiet() && |wave| == |shown| == old(|wave|) + 3 && |cmd.dat| == 32
      ensures var i, was := Index(memory.base, memory.sizeLog2, command.adr), old(memory.mem);
              && memory.mem == (if command.isWrite then was[i := Merge(was[i], command.dat, command.sel)] else was)
              && cmd == (if command.isWrite then command else command.(dat := was[i]))
      ensures Accepted(wave, shown) == Accepted(old(wave), old(shown)) + [Request(command)]
      ensures |Taken(wave, shown)| == |Taken(old(wave), old(shown))| + 1
    {
      hide Accepted, Taken, Index, Merge;
      cmd := command;
      HandshakesSnoc(wave, shown, host, memory.Shown());
      var per := WaitEdge();
      host := host.(a := host.a.(opcode := if cmd.isWrite then
                                             if cmd.sel == ALL_LANES then OP_PUT_FULL_DATA else OP_PUT_PARTIAL_DATA
                                           else OP_GET));
      host := HostPort(ChannelA(true, host.a.opcode, 0, 2, cmd.adr, cmd.sel, cmd.dat), true);
      var aDone, dDone := false, false;
      ghost var was, i := memory.mem, Index(memory.base, memory.sizeLog2, command.adr);
      while !(aDone && dDone)
        invariant Valid() && |wave| == old(|wave|) + 1 + (if aDone then 1 else 0) + (if dDone then 1 else 0)
        invariant dDone ==> aDone
        invariant host == HostPort(Request(command).(valid := !aDone), !dDone)
        invariant memory.dValid == (aDone && !dDone)
        invariant !aDone ==> memory.mem == was
        invariant aDone ==> memory.mem == if command.isWrite then was[i := Merge(was[i], command.dat, command.sel)]
                  else was
        invariant aDone && !dDone && !command.isWrite ==> memory.dData == was[i]
        invariant cmd == if dDone && !command.isWrite then command.(dat := was[i]) else command
        invariant Accepted(wave, shown) == Accepted(old(wave), old(shown)) + if aDone then [Request(command)] else []
        invariant |Taken(wave, shown)| == |Taken(old(wave), old(shown))| + if dDone then 1 else 0
        decreases !aDone, !dDone
      {
        HandshakesSnoc(wave, shown, host, memory.Shown());
        per := WaitEdge();
        if !aDone && per.aReady {
          aDone := true;
          host := host.(a := host.a.(valid := false));
        }
        if !dDone && per.dValid {
          dDone := true;
          host := host.(dReady := false);
          if !cmd.isWrite {
            cmd := cmd.(dat := per.dData);
          }
        }
      }
      host := HOST_NEW;
    }

    /** The host process over a whole run: gaps[k] edges pass before the k-th command comes. Every
        bit a read returns is the last one written to it, every command takes three edges, and
        the requests that cross the bus are those of the commands, in order. */
    method P0(cmds: seq<Command>, gaps: seq<nat>) returns (replies: seq<Command>)
      requires Quiet() && wave == [] && shown == [] && |gaps| == |cmds|
      requires memory.mem == WordsAfter(memory.base, memory.sizeLog2, [])
      requires forall k :: 0 <= k < |cmds| ==> WellFormed(cmds[k])
      modifies this, memory
      ensures Quiet() && |replies| == |cmds| && |wave| == |shown|
      ensures forall k | 0 <= k < |cmds| :: Answers(memory.base, memory.sizeLog2, cmds, k, replies[k])
      ensures memory.mem == WordsAfter(memory.base, memory.sizeLog2, cmds)
      ensures Accepted(wave, shown) == Requests(cmds)
      ensures forall k | 0 <= k < |cmds| :: Asks(Accepted(wave, shown)[k], cmds[k])
      ensures |Taken(wave, shown)| == |cmds| && |wave| == 3 * |cmds| + Sum(gaps)
    {
      hide *;
      replies := [];
      NothingYet(cmds, gaps);
      RequestsAsk(cmds);
      for k := 0 to |cmds|
        invariant Quiet() && |replies| == k && |wave| == |shown|
        invariant memory.mem == WordsAfter(memory.base, memory.sizeLog2, cmds[..k])
        invariant forall j | 0 <= j < k :: Answers(memory.base, memory.sizeLog2, cmds, j, replies[j])
        invariant Accepted(wave, shown) == Requests(cmds[..k])
        invariant |Taken(wave, shown)| == k && |wave| == 3 * k + Sum(gaps[..k])
      {
        Idle(gaps[k]);
        WordsAfterStep(memory.base, memory.sizeLog2, cmds, k);
        SumStep(gaps, k);
        RequestsStep(cmds, k);
        var cmd := Perform(cmds[k]);
        AnswersOne(memory.base, memory.sizeLog2, cmds, k, cmd);
        replies := replies + [cmd];
      }
    }
  }

  function Sum(s: seq<nat>): nat {
    if s == [] then 0 else Sum(s[..|s| - 1]) + s[|s| - 1]
  }
}
