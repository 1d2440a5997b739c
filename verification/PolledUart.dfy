/** The polled UART of lib/uart: a hardware port with a host at its other end, the 256-slot ring
    that stashes what arrives while the program is trying to transmit, and the line reader. */
module PolledUart {
  import opened Common

  const XON: char := '\U{11}'
  const XOFF: char := '\U{13}'
  const NUL: char := '\U{0}'
  const RING := 256
  const TX_DEPTH := 8

  // ---------------------------------------------------------------- the host's side

  function Joined(lines: seq<string>): string {
    if lines == [] then [] else Joined(lines[..|lines| - 1]) + lines[|lines| - 1]
  }

  function Xons(written: string): nat {
    if written == [] then 0
    else Xons(written[..|written| - 1]) + if written[|written| - 1] == XON then 1 else 0
  }

  /** Somewhere the program has written its prompt. */
  predicate Prompted(written: string) {
    if |written| < 5 then false else written[|written| - 5..] == "ihex:" || Prompted(written[..|written| - 1])
  }

  /** How many lines the host may send: one for the prompt and one for each XON. */
  function Credits(written: string): nat {
    Xons(written) + if Prompted(written) then 1 else 0
  }

  lemma {:induction false} JoinedConcat(a: seq<string>, b: seq<string>)
    ensures Joined(a + b) == Joined(a) + Joined(b)
  {
    if b == [] {
      assert a + b == a;
    } else {
      JoinedConcat(a, b[..|b| - 1]);
      assert (a + b)[..|a + b| - 1] == a + b[..|b| - 1];
    }
  }

  lemma JoinedPrefix(lines: seq<string>, i: nat, j: nat)
    requires i <= j <= |lines|
    ensures Joined(lines[..i]) <= Joined(lines[..j])
  {
    JoinedConcat(lines[..i], lines[i..j]);
    assert lines[..i] + lines[i..j] == lines[..j];
  }

  lemma {:induction false} CreditsAppend(written: string, s: string)
    ensures Xons(written + s) == Xons(written) + Xons(s) && (XON !in s ==> Xons(s) == 0)
    ensures Prompted(written) ==> Prompted(written + s)
    ensures Credits(written) <= Credits(written + s) <= Credits(written) + Xons(s) + if Prompted(written) then 0 else 1
  {
    if s == [] {
      assert written + s == written;
    } else {
      CreditsAppend(written, s[..|s| - 1]);
      assert (written + s)[..|written + s| - 1] == written + s[..|s| - 1];
    }
  }

  // ---------------------------------------------------------------- the hardware

  /** What happens between one status read and the next: the host sends up to `send` more bytes
      and the port gets up to `drain` bytes out on the wire. */
  datatype Tick = Tick(send: nat, drain: nat)

  /** The status word, taken apart: bit 8, bit 11, bit 10 and the low byte. */
  datatype Status = Status(empty: bool, full: bool, txEmpty: bool, data: char)

  /** How many bytes the host has sent, and the two FIFOs. */
  datatype Port = Port(sent: nat, rx: string, tx: string) {
    function Shown(): Status {
      Status(rx == "", |tx| == TX_DEPTH, tx == "", if rx == "" then NUL else rx[0])
    }

    /** After a read, which takes the oldest byte received. */
    function Taken(): Port {
      this.(rx := if rx == "" then "" else rx[1..])
    }
  }

  /** The port after the host has sent what it likes, up to its limit, and some bytes have gone out. */
  function Ticked(stream: string, limit: nat, tick: Tick, p: Port): (q: Port)
    requires p.sent <= limit <= |stream|
    ensures p.sent <= q.sent <= limit && q.rx == p.rx + stream[p.sent..q.sent]
  {
    var n := Min(tick.send, limit - p.sent);
    Port(p.sent + n, p.rx + stream[p.sent..p.sent + n], p.tx[Min(tick.drain, |p.tx|)..])
  }

  /** The receive FIFO holds the last bytes sent. */
  ghost predicate InStream(stream: string, p: Port) {
    |p.rx| <= p.sent <= |stream| && p.rx == stream[p.sent - |p.rx|..p.sent]
  }

  lemma TickedInStream(stream: string, limit: nat, tick: Tick, p: Port)
    requires p.sent <= limit <= |stream| && InStream(stream, p)
    ensures InStream(stream, Ticked(stream, limit, tick, p))
  {
    var q := Ticked(stream, limit, tick, p);
    assert stream[p.sent - |p.rx|..p.sent] + stream[p.sent..q.sent] == stream[p.sent - |p.rx|..q.sent];
  }

  /** If something can arrive it does, and if something is to go out it does. */
  predicate EagerTick(tick: Tick) {
    tick.send > 0 && tick.drain > 0
  }

  lemma TickedEager(stream: string, limit: nat, tick: Tick, p: Port)
    requires p.sent <= limit <= |stream| && |p.tx| <= TX_DEPTH && EagerTick(tick)
    ensures var q := Ticked(stream, limit, tick, p);
            |q.tx| < TX_DEPTH && (p.tx != "" ==> |q.tx| < |p.tx|) && (p.tx == "" ==> q.tx == "")
              && (p.rx != "" || p.sent < limit ==> q.rx != "")
  {
  }

  lemma TakenInStream(stream: string, p: Port)
    requires InStream(stream, p)
    ensures InStream(stream, p.Taken()) && p.rx == (if p.rx == "" then "" else [p.rx[0]]) + p.Taken().rx
  {
  }

  class Device {
    /** The host's lines, and whether it waits for credit before each. */
    const lines: seq<string>
    const gated: bool
    /** What happens before each status read; the run under study ends with the script. */
    const script: seq<Tick>
    var at: nat
    /** Bytes the host has sent, and those of them still in the receive FIFO. */
    var sent: nat
    var rx: string
    /** Bytes in the transmit FIFO, and all bytes the program ever wrote to it. */
    var tx: string
    var written: string

    constructor (lines: seq<string>, gated: bool, script: seq<Tick>)
      ensures Valid() && this.lines == lines && this.gated == gated && this.script == script
      ensures at == 0 && sent == 0 && rx == "" && tx == "" && written == ""
    {
      this.lines, this.gated, this.script := lines, gated, script;
      at, sent := 0, 0;
      rx, tx, written := "", "", "";
      new;
      LimitGrows("", "");
      assert "" + "" == "";
    }

    /** Between any two status reads a byte arrives if the host has one to send, and one goes out. */
    ghost predicate Eager() {
      forall i | 0 <= i < |script| :: EagerTick(script[i])
    }

    function Stream(): string {
      Joined(lines)
    }

    /** How many bytes the host may have sent by now. */
    function LimitFor(output: string): nat {
      |Joined(lines[..if gated then Min(Credits(output), |lines|) else |lines|])|
    }

    function Limit(): nat
      reads this`written
    {
      LimitFor(written)
    }

    /** More output never takes credit back, and no credit goes beyond the host's lines. */
    lemma LimitGrows(output: string, more: string)
      ensures LimitFor(output) <= LimitFor(output + more) <= |Stream()|
    {
      CreditsAppend(output, more);
      var i := if gated then Min(Credits(output), |lines|) else |lines|;
      var j := if gated then Min(Credits(output + more), |lines|) else |lines|;
      JoinedPrefix(lines, i, j);
      JoinedPrefix(lines, j, |lines|);
      assert lines[..|lines|] == lines;
    }

    ghost predicate Valid()
      reads this
    {
      at <= |script| && sent <= Limit() <= |Stream()| && |tx| <= TX_DEPTH && InStream(Stream(), State())
    }

    function State(): Port
      reads this
    {
      Port(sent, rx, tx)
    }

    /** What happens before a status read. */
    method Pass()
      requires Valid() && at < |script|
      modifies this`at, this`sent, this`rx, this`tx
      ensures at == old(at) + 1 && State() == Ticked(Stream(), Limit(), script[old(at)], old(State()))
      ensures Valid()
      ensures Eager() ==> |tx| < TX_DEPTH && (old(rx) != "" || old(sent) < Limit() ==> rx != "")
    {
      if Eager() {
        TickedEager(Stream(), Limit(), script[at], State());
      }
      TickedInStream(Stream(), Limit(), script[at], State());
      var tick := script[at];
      at := at + 1;
      var n := Min(tick.send, Limit() - sent);
      rx := rx + Stream()[sent..sent + n];
      sent := sent + n;
      tx := tx[Min(tick.drain, |tx|)..];
    }

    /** A read of the port: the status, and the oldest byte received if there is one. The read
        takes that byte. `live` is false when the run ends first. */
    method RawRead() returns (live: bool, v: Status)
      requires Valid()
      modifies this`at, this`sent, this`rx, this`tx
      ensures Valid() && live == (old(at) < |script|)
      ensures !live ==> at == old(at) && sent == old(sent) && rx == old(rx) && tx == old(tx)
      ensures live ==> at == old(at) + 1 && old(sent) <= sent
      ensures live ==> old(rx) + Stream()[old(sent)..sent] == (if v.empty then "" else [v.data]) + rx
      ensures live && v.empty ==> rx == ""
      ensures live ==> v.full == (|tx| == 8) && v.txEmpty == (tx == "")
      ensures live && Eager() ==> !v.full && (old(rx) != "" || old(sent) < Limit() ==> !v.empty)
      ensures live ==>
                var p := Ticked(Stream(), Limit(), script[old(at)], old(State()));
                v == p.Shown() && State() == p.Taken()
    {
      hide Ticked, Joined, Credits;
      live := at < |script|;
      v := Status(true, true, false, NUL);
      if live {
        Pass();
        TakenInStream(Stream(), State());
        v := Status(rx == "", |tx| == TX_DEPTH, tx == "", if rx == "" then NUL else rx[0]);
        if rx != "" {
          rx := rx[1..];
        }
      }
    }

    /** A write to the port; the transmit FIFO must have room. */
    method RawWrite(c: char)
      requires Valid() && |tx| < TX_DEPTH
      modifies this`tx, this`written
      ensures Valid() && written == old(written) + [c]
    {
      LimitGrows(written, [c]);
      tx := tx + [c];
      written := written + [c];
    }
  }

  // ---------------------------------------------------------------- the ring

  /** What one more stashed byte makes of the ring's contents: the 256th makes it look empty. */
  function Stashed(contents: string, c: char): string {
    if |contents| < RING - 1 then contents + [c] else ""
  }

  /** The slots from rd up to wr, going round at the end of the array. */
  function RingContents(slots: string, rd: nat, wr: nat): (contents: string)
    requires |slots| == RING && rd < RING && wr < RING
    ensures |contents| < RING
  {
    if rd <= wr then slots[rd..wr] else slots[rd..] + slots[..wr]
  }

  lemma RingPush(slots: string, rd: nat, wr: nat, c: char)
    requires |slots| == RING && rd < RING && wr < RING
    ensures RingContents(slots[wr := c], rd, (wr + 1) % RING) == Stashed(RingContents(slots, rd, wr), c)
  {
    if rd <= wr < RING - 1 {
      assert slots[wr := c][rd..wr + 1] == slots[rd..wr] + [c];
    } else if rd <= wr {
      assert slots[wr := c][rd..] == slots[rd..wr] + [c];
    }
  }

  lemma RingPop(slots: string, rd: nat, wr: nat)
    requires |slots| == RING && rd < RING && wr < RING && rd != wr
    ensures RingContents(slots, rd, wr) == [slots[rd]] + RingContents(slots, (rd + 1) % RING, wr)
  {
    var next := if rd + 1 < RING then rd + 1 else 0;
    var all, rest := RingContents(slots, rd, wr), RingContents(slots, next, wr);
    assert (rd + 1) % RING == next;
    if rd < wr {
      assert all == slots[rd..wr] && rest == slots[rd + 1..wr];
      hide RingContents;
      SliceCons(slots, rd, wr);
    } else if rd + 1 < RING {
      assert all == slots[rd..] + slots[..wr] && rest == slots[rd + 1..] + slots[..wr];
      hide RingContents;
      TailCons(slots, rd, slots[..wr]);
    } else {
      assert all == slots[rd..] + slots[..wr] && rest == slots[0..wr];
      hide RingContents;
      TailGone(slots, rd, wr);
    }
  }

  lemma TailCons(s: string, i: nat, more: string)
    requires i < |s|
    ensures s[i..] + more == [s[i]] + (s[i + 1..] + more)
  {
  }

  lemma TailGone(s: string, i: nat, j: nat)
    requires i + 1 == |s| && j <= |s|
    ensures s[i..] + s[..j] == [s[i]] + s[0..j]
  {
  }

  lemma SliceCons(s: string, i: nat, j: nat)
    requires i < j <= |s|
    ensures s[i..j] == [s[i]] + s[i + 1..j]
  {
  }

  /** Nothing is lost except 256 bytes at each overflow; until the first, what was delivered, what
      the ring holds and what is in the receive FIFO are what the host has sent, in order. */
  ghost predicate Balanced(stream: string, sent: nat, delivered: string, contents: string, rx: string, overflows: nat) {
    && |delivered| + |contents| + |rx| + RING * overflows == sent <= |stream|
    && (overflows == 0 ==> delivered + contents + rx == stream[..sent])
  }

  /** A read of the port moves at most one byte out of the receive FIFO. */
  lemma BalancedRead(stream: string, sent: nat, sent': nat, delivered: string, contents: string,
                     rx: string, rx': string, fetched: string, overflows: nat)
    requires Balanced(stream, sent, delivered, contents, rx, overflows)
    requires sent <= sent' <= |stream| && rx + stream[sent..sent'] == fetched + rx'
    ensures Balanced(stream, sent', delivered, contents + fetched, rx', overflows)
    ensures |contents| + |fetched| == RING ==> Balanced(stream, sent', delivered, "", rx', overflows + 1)
    ensures contents == "" ==> Balanced(stream, sent', delivered + fetched, contents, rx', overflows)
  {
    assert |rx + stream[sent..sent']| == |fetched + rx'|;
    if overflows == 0 {
      assert stream[..sent'] == stream[..sent] + stream[sent..sent'];
      assert delivered + contents + (rx + stream[sent..sent']) == delivered + contents + rx + stream[sent..sent'];
      assert delivered + contents + (fetched + rx') == delivered + (contents + fetched) + rx';
    }
  }

  /** Taking a byte from the ring. */
  lemma BalancedTake(stream: string, sent: nat, delivered: string, contents: string, rx: string, c: char,
    overflows: nat)
    requires Balanced(stream, sent, delivered, [c] + contents, rx, overflows)
    ensures Balanced(stream, sent, delivered + [c], contents, rx, overflows)
  {
    assert delivered + [c] + contents == delivered + ([c] + contents);
  }

  class UartBuf {
    const dev: Device
    const buf: array<char>
    var rd: nat
    var wr: nat
    /** All bytes handed to callers, and how often a 256th byte was stashed. */
    ghost var delivered: string
    ghost var overflows: nat

    constructor (dev: Device)
      requires dev.Valid() && dev.sent == 0
      ensures Valid() && this.dev == dev && fresh(buf) && buf.Length == 256 && delivered == "" && overflows == 0
    {
      this.dev := dev;
      buf := new char[RING];
      rd, wr, delivered, overflows := 0, 0, "", 0;
    }

    function Contents(): string
      requires buf.Length == RING && rd < RING && wr < RING
      reads this, buf
    {
      RingContents(buf[..], rd, wr)
    }

    ghost predicate Valid()
      reads this, buf, dev
    {
      && dev.Valid() && buf.Length == RING && rd < RING && wr < RING
      && Balanced(dev.Stream(), dev.sent, delivered, Contents(), dev.rx, overflows)
    }

    /** What the host may send and what it has sent but nobody took yet fit in the ring. */
    ghost predicate Fits()
      reads this, dev
    {
      overflows == 0 && dev.Limit() <= |delivered| + (RING - 1)
    }

    method Stash(c: char)
      requires buf.Length == RING && rd < RING && wr < RING
      modifies this`wr, buf
      ensures wr < RING && Contents() == Stashed(old(Contents()), c)
      ensures Contents() == if old(|Contents()|) < 255 then old(Contents()) + [c] else ""
    {
      RingPush(buf[..], rd, wr, c);
      assert buf[..][wr := c] == old(buf[..])[wr := c];
      buf[wr] := c;
      wr := (wr + 1) % RING;
      assert buf[..] == old(buf[..])[old(wr) := c];
    }

    method CanWrite() returns (live: bool, r: bool)
      requires Valid()
      modifies this`wr, this`overflows, buf, dev`at, dev`sent, dev`rx, dev`tx
      ensures Valid() && live == (old(dev.at) < |dev.script|) && dev.at == old(dev.at) + (if live then 1 else 0)
      ensures r ==> live && |dev.tx| < TX_DEPTH
      ensures Contents() == old(Contents()) || exists c :: Contents() == Stashed(old(Contents()), c)
      ensures overflows == old(overflows)
              || (overflows == old(overflows) + 1 && old(|Contents()|) == RING - 1 && Contents() == "")
      ensures dev.Eager() && live ==> r
      ensures old(Fits()) ==> Fits()
    {
      hide Balanced, Joined, RingContents;
      ghost var contents, rx, sent := Contents(), dev.rx, dev.sent;
      var v;
      live, v := dev.RawRead();
      r := live && !v.full;
      if live {
        BalancedRead(dev.Stream(), sent, dev.sent, delivered, contents, rx, dev.rx, if v.empty then "" else [v.data],
          overflows);
        assert contents + "" == contents;
      }
      if live && !v.empty {
        Stash(v.data);
        if |contents| == RING - 1 {
          overflows := overflows + 1;
        }
      }
    }

    /** The oldest byte of the ring. */
    method TakeStashed() returns (c: char)
      requires Valid() && rd != wr
      modifies this`rd, this`delivered
      ensures Valid() && delivered == old(delivered) + [c] && overflows == old(overflows)
    {
      hide Balanced, Joined, RingContents;
      c := buf[rd];
      RingPop(buf[..], rd, wr);
      rd := (rd + 1) % RING;
      BalancedTake(dev.Stream(), dev.sent, delivered, Contents(), dev.rx, c, overflows);
      delivered := delivered + [c];
    }

    /** A byte from the port, when the ring is empty. */
    method TakeFresh() returns (live: bool, r: bool, c: char)
      requires Valid() && rd == wr
      modifies this`delivered, dev`at, dev`sent, dev`rx, dev`tx
      ensures Valid() && live == (old(dev.at) < |dev.script|) && dev.at == old(dev.at) + if live then 1 else 0
      ensures (r ==> live) && delivered == old(delivered) + if r then [c] else ""
      ensures dev.Eager() && live && overflows == 0 && old(|delivered|) < dev.Limit() ==> r
      ensures overflows == old(overflows)
    {
      assert Contents() == "";
      assert overflows == 0 && |delivered| < dev.Limit() ==> dev.rx != "" || dev.sent < dev.Limit();
      hide Balanced, Joined, RingContents, Ticked;
      c := NUL;
      ghost var rx, sent := dev.rx, dev.sent;
      var v;
      live, v := dev.RawRead();
      r := live && !v.empty;
      if live {
        BalancedRead(dev.Stream(), sent, dev.sent, delivered, "", rx, dev.rx, if v.empty then "" else [v.data],
          overflows);
        assert delivered + "" == delivered;
      }
      if r {
        c := v.data;
        delivered := delivered + [c];
      }
    }

    method GetAsync() returns (live: bool, r: bool, c: char)
      requires Valid()
      modifies this`rd, this`delivered, dev`at, dev`sent, dev`rx, dev`tx
      ensures Valid() && old(dev.at) <= dev.at && (live && !r ==> old(dev.at) < dev.at)
      ensures !live ==> dev.at == |dev.script|
      ensures delivered == old(delivered) + if live && r then [c] else ""
      ensures dev.Eager() && overflows == 0 && old(|delivered|) < dev.Limit() && old(dev.at) < |dev.script| ==>
                live && r && dev.at <= old(dev.at) + 1
      ensures overflows == old(overflows) && (old(Fits()) ==> Fits())
    {
      hide Balanced, Joined, RingContents, Credits;
      if rd != wr {
        c := TakeStashed();
        return true, true, c;
      }
      live, r, c := TakeFresh();
    }

    method PutAsync(c: char) returns (live: bool, r: bool)
      requires Valid()
      modifies this`wr, this`overflows, buf, dev`at, dev`sent, dev`rx, dev`tx, dev`written
      ensures Valid() && live == (old(dev.at) < |dev.script|) && dev.at == old(dev.at) + (if live then 1 else 0)
      ensures dev.Eager() && live ==> r
      ensures r ==> live
      ensures dev.written == old(dev.written) + if r then [c] else ""
      ensures old(Fits()) ==> overflows == 0 && (!r ==> Fits())
    {
      live, r := CanWrite();
      if r {
        dev.RawWrite(c);
      }
    }

    method Put(c: char) returns (live: bool)
      requires Valid()
      modifies this`wr, this`overflows, buf, dev`at, dev`sent, dev`rx, dev`tx, dev`written
      ensures Valid()
      ensures dev.written == old(dev.written) + if live then [c] else ""
      ensures old(dev.at) <= dev.at && if live then old(dev.at) < dev.at else dev.at == |dev.script|
      ensures dev.Eager() && old(dev.at) < |dev.script| ==> live && dev.at == old(dev.at) + 1
      ensures old(Fits()) ==> overflows == 0
    {
      var r := false;
      live := true;
      while live && !r
        invariant Valid() && old(dev.at) <= dev.at
        invariant dev.written == old(dev.written) + if r then [c] else ""
        invariant (r ==> live && old(dev.at) < dev.at) && (!live ==> dev.at == |dev.script|)
        invariant dev.Eager() && old(dev.at) < |dev.script| ==>
                    live && dev.at == old(dev.at) + if r then 1 else 0
        invariant old(Fits()) ==> overflows == 0 && (!r ==> Fits())
        decreases live && !r, |dev.script| - dev.at
      {
        live, r := PutAsync(c);
      }
    }

    method Get() returns (live: bool, c: char)
      requires Valid()
      modifies this`rd, this`delivered, dev`at, dev`sent, dev`rx, dev`tx
      ensures Valid()
      ensures delivered == old(delivered) + if live then [c] else ""
      ensures old(dev.at) <= dev.at && (!live ==> dev.at == |dev.script|)
      ensures dev.Eager() && overflows == 0 && old(|delivered|) < dev.Limit() && old(dev.at) < |dev.script| ==>
                live && dev.at <= old(dev.at) + 1
      ensures overflows == old(overflows) && (old(Fits()) ==> Fits())
    {
      var r := false;
      live, c := true, NUL;
      while live && !r
        invariant Valid()
        invariant delivered == old(delivered) + if live && r then [c] else ""
        invariant old(dev.at) <= dev.at && (!live ==> dev.at == |dev.script|)
        invariant dev.Eager() && overflows == 0 && old(|delivered|) < dev.Limit() && old(dev.at) < |dev.script| ==>
                    live && dev.at <= old(dev.at) + if r then 1 else 0
        invariant overflows == old(overflows) && (old(Fits()) ==> Fits())
        decreases live && !r, |dev.script| - dev.at
      {
        live, r, c := GetAsync();
      }
    }

    method WaitAvailable() returns (live: bool)
      requires Valid()
      modifies this`wr, this`overflows, buf, dev`at, dev`sent, dev`rx, dev`tx
      ensures Valid() && dev.written == old(dev.written) && (live ==> |dev.tx| < TX_DEPTH)
      ensures !live ==> dev.at == |dev.script|
      ensures old(Fits()) ==> Fits()
    {
      var r := false;
      live := true;
      while live && !r
        invariant Valid() && (live && r ==> |dev.tx| < TX_DEPTH) && (!live ==> dev.at == |dev.script|)
        invariant old(Fits()) ==> Fits()
        decreases live && !r, |dev.script| - dev.at
      {
        live, r := CanWrite();
      }
    }

    /** uart_print. */
    method Print(s: string) returns (live: bool)
      requires Valid() && NUL !in s
      modifies this`wr, this`overflows, buf, dev`at, dev`sent, dev`rx, dev`tx, dev`written
      ensures Valid() && old(dev.written) <= dev.written <= old(dev.written) + s && old(dev.at) <= dev.at
      ensures if live then dev.written == old(dev.written) + s else dev.at == |dev.script|
      ensures dev.Eager() && old(dev.at) + |s| <= |dev.script| ==> live && dev.at == old(dev.at) + |s|
      ensures old(Fits()) && dev.LimitFor(old(dev.written) + s) <= |delivered| + (RING - 1) ==> Fits()
    {
      hide Balanced, Joined, RingContents, Credits;
      ghost var before := dev.written;
      ghost var fits := Fits() && dev.LimitFor(before + s) <= |delivered| + (RING - 1);
      live := true;
      var i := 0;
      while i < |s|
        invariant Valid() && 0 <= i <= |s| && dev.written == before + s[..i] && old(dev.at) <= dev.at
        invariant dev.Eager() && old(dev.at) + |s| <= |dev.script| ==> dev.at == old(dev.at) + i
        invariant fits ==> Fits()
      {
        live := Put(s[i]);
        assert before + s[..i] + [] == before + s[..i];
        assert before + s[..i] + [s[i]] == before + s[..i + 1];
        if !live {
          Within(before, s, i);
          return;
        }
        i := i + 1;
        Within(before, s, i);
      }
      assert s[..|s|] == s;
    }

    /** A prefix of the output gives no more credit than the whole of it. */
    lemma Within(before: string, s: string, i: nat)
      requires i <= |s|
      ensures dev.LimitFor(before + s[..i]) <= dev.LimitFor(before + s)
      ensures before <= before + s[..i] <= before + s
    {
      dev.LimitGrows(before + s[..i], s[i..]);
      assert before + s[..i] + s[i..] == before + s;
    }

    /** The next `due` bytes end a line, the host has credit for them and the script is long enough. */
    ghost predicate IsDue(due: nat)
      requires Valid()
      reads this, buf, dev
    {
      && dev.Eager() && overflows == 0 && 0 < due && |delivered| + due <= dev.Limit()
      && dev.Stream()[|delivered| + due - 1] == '\n' && dev.at + due <= |dev.script|
    }

    lemma DueFacts(due: nat)
      requires Valid() && IsDue(due)
      ensures dev.Eager() && overflows == 0 && 0 < due && |delivered| + due <= dev.Limit() <= |dev.Stream()|
      ensures dev.Stream()[|delivered| + due - 1] == '\n' && dev.at + due <= |dev.script|
    {
    }

    /** As long as no newline has come it is still due. */
    lemma DueStep(before: string, due: nat, got: string)
      requires Valid() && overflows == 0 && delivered == before + got && '\n' !in got
      requires 0 < due && |before| + due <= |dev.Stream()| && dev.Stream()[|before| + due - 1] == '\n' && |got| <= due
      ensures |got| < due
    {
      DeliveredIs();
      hide Balanced, Joined, RingContents;
      assert forall i | 0 <= i < |got| :: got[i] == delivered[|before| + i];
    }

    lemma DeliveredIs()
      requires Valid() && overflows == 0
      ensures |delivered| <= dev.sent <= |dev.Stream()| && delivered == dev.Stream()[..|delivered|]
    {
      assert delivered + Contents() + dev.rx == delivered + (Contents() + dev.rx);
    }

    /** uart_getline: reads at most n bytes into line. It succeeds just when a newline is among the
        first n - 1 of them, and then line holds everything up to it, then a NUL. */
    method Getline(line: array<char>, n: nat, ghost due: nat := 0) returns (live: bool, ok: bool, ghost got: string)
      requires Valid() && n <= line.Length && line != buf
      modifies this`rd, this`delivered, dev`at, dev`sent, dev`rx, dev`tx, line
      ensures Valid() && delivered == old(delivered) + got && |got| <= n && old(dev.at) <= dev.at
      ensures overflows == old(overflows) && (old(Fits()) ==> Fits())
      ensures ok ==> live && IsLine(got) && |got| < n && line[..|got|] == got && line[|got|] == '\U{0}'
      ensures live && !ok && 0 < n ==>
              |got| == n && '\n' !in got[..n - 1] && line[..n - 1] == got[..n - 1]
              && line[n - 1] == '\U{0}'
      ensures !live ==> |got| < n && '\n' !in got && dev.at == |dev.script|
      ensures forall i :: n <= i < line.Length ==> line[i] == old(line[i])
      ensures old(IsDue(due)) && due < n ==> live && dev.at <= old(dev.at) + due
    {
      hide *;
      ghost var before, awaited := delivered, IsDue(due) && due < n;
      if awaited {
        DueFacts(due);
      }
      assert before + "" == before;
      LineStarts();
      live, ok, got := true, false, "";
      if n == 0 {
        return;
      }
      var left, at, last := n, 0, NUL;
      while left > 0 && last != '\n'
        invariant Valid() && 0 <= left && at + left == n && |got| == at && line[..at] == got
                  && delivered == before + got
        invariant old(dev.at) <= dev.at
        invariant overflows == old(overflows) && (old(Fits()) ==> Fits())
        invariant if last == '\n' then IsLine(got) else '\n' !in got
        invariant forall i :: n <= i < line.Length ==> line[i] == old(line[i])
        invariant awaited ==> dev.at <= old(dev.at) + at && at <= due
      {
        if awaited {
          DueStep(before, due, got);
        }
        ghost var was := got;
        live, last := Get();
        if !live {
          return;
        }
        LineStep(before, was, last);
        line[at] := last;
        got := was + [last];
        assert line[..at] == was;
        at := at + 1;
        left := left - 1;
      }
      if left == 0 {
        line[at - 1] := NUL;
        LastDropped(got);
        NulIsZero();
        return true, false, got;
      }
      line[at] := NUL;
      NulIsZero();
      return true, true, got;
    }

    /** Any interleaving of the calls the rest of the program makes: what goes out is what was put,
        and what comes back is, with the ring and the receive FIFO, what arrived. */
    method Calls(calls: seq<Call>) returns (done: nat, got: string)
      requires Valid()
      modifies this, buf, dev`at, dev`sent, dev`rx, dev`tx, dev`written
      ensures Valid() && done <= |calls|
      ensures dev.written == old(dev.written) + Puts(calls[..done])
      ensures delivered == old(delivered) + got && |got| == Gets(calls[..done])
      ensures done < |calls| ==> dev.at == |dev.script|
    {
      hide Balanced, Joined, RingContents, Credits;
      done, got := 0, "";
      while done < |calls|
        invariant Valid() && done <= |calls|
        invariant dev.written == old(dev.written) + Puts(calls[..done])
        invariant delivered == old(delivered) + got && |got| == Gets(calls[..done])
      {
        assert calls[..done + 1][..done] == calls[..done];
        var live;
        match calls[done] {
          case GetChar =>
            var c;
            live, c := Get();
            got := got + if live then [c] else "";
          case PutChar(c) =>
            live := Put(c);
          case AwaitRoom =>
            live := WaitAvailable();
        }
        if !live {
          return;
        }
        done := done + 1;
      }
      assert calls[..|calls|] == calls;
    }
  }

  datatype Call = GetChar | PutChar(c: char) | AwaitRoom

  function Puts(calls: seq<Call>): string {
    if calls == [] then ""
    else
      var last := calls[|calls| - 1];
      Puts(calls[..|calls| - 1]) + if last.PutChar? then [last.c] else ""
  }

  function Gets(calls: seq<Call>): nat {
    if calls == [] then 0 else Gets(calls[..|calls| - 1]) + if calls[|calls| - 1].GetChar? then 1 else 0
  }

  lemma LineStep(before: string, got: string, c: char)
    requires '\n' !in got
    ensures if c == '\n' then IsLine(got + [c]) else '\n' !in got + [c]
    ensures before + got + [c] == before + (got + [c])
  {
    assert (got + [c])[..|got|] == got;
  }

  lemma LineStarts()
    ensures '\n' !in "" && NUL != '\n'
  {
  }

  lemma NulIsZero()
    ensures NUL == '\U{0}'
  {
  }

  /** Without its last character a line has no newline. */
  lemma LastDropped(got: string)
    requires got != "" && ('\n' !in got || IsLine(got))
    ensures '\n' !in got[..|got| - 1]
  {
  }

  /** A newline at the end and nowhere else. */
  predicate IsLine(s: string) {
    s != "" && s[|s| - 1] == '\n' && '\n' !in s[..|s| - 1]
  }
}
