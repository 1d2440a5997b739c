/** The SD card driver over its register device. Every byte exchanged is in the transcript, and
    what the driver decides depends on the bytes the card gives back, whatever they are and however
    long the device stays busy. */
module SdCard {
  import opened Common
  import opened Wrappers
  import opened SdProtocol
  import opened SdTranscript

  // ---------------------------------------------------------------- the register device

  class Device {
    /** The n-th byte the card gives back, and for how many reads of the control register the n-th
        exchange keeps the device busy. */
    const miso: nat -> Byte
    const delay: nat -> nat
    /** The control register: bit 0 is CS_N, bits 31 to 16 the clock divider; bit 1 reads as busy. */
    var ctrl: bv32
    var busy: nat
    var received: Byte
    var transcript: seq<Exchange>

    constructor (miso: nat -> Byte, delay: nat -> nat)
      ensures this.miso == miso && this.delay == delay && transcript == [] && busy == 0 && ctrl == 1
    {
      this.miso, this.delay := miso, delay;
      ctrl, busy, received, transcript := 1, 0, 0, [];
    }

    function CsN(): bool
      reads this`ctrl
    {
      ctrl & 1 == 1
    }

    /** The clock divider. */
    function Divider(): bv32
      reads this`ctrl
    {
      ctrl >> 16
    }

    /** Starts an exchange; the device must not be busy with the last one. */
    method WriteData(data: Byte)
      requires busy == 0
      modifies this`busy, this`received, this`transcript
      ensures busy == delay(old(|transcript|)) && received == miso(old(|transcript|))
      ensures transcript == old(transcript) + [Exchange(CsN(), data, miso(old(|transcript|)))]
    {
      busy, received := delay(|transcript|), miso(|transcript|);
      transcript := transcript + [Exchange(CsN(), data, received)];
    }

    method ReadData() returns (data: Byte)
      ensures data == received
    {
      data := received;
    }

    method WriteCtrl(value: bv32)
      requires busy == 0
      modifies this`ctrl
      ensures ctrl == value
    {
      ctrl := value;
    }

    method ReadCtrl() returns (value: bv32)
      modifies this`busy
      ensures value == (ctrl & 0xFFFF_FFFD) | (if old(busy) == 0 then 0 else 2)
      ensures busy == if old(busy) == 0 then 0 else old(busy) - 1
    {
      value := (ctrl & 0xFFFF_FFFD) | (if busy == 0 then 0 else 2);
      busy := if busy == 0 then 0 else busy - 1;
    }
  }

  lemma BusyBit(ctrl: bv32)
    ensures (((ctrl & 0xFFFF_FFFD) | 2) & 2) == 2
    ensures (((ctrl & 0xFFFF_FFFD) | 0) & 2) == 0
  {
  }

  class Driver {
    const dev: Device

    constructor (dev: Device)
      ensures this.dev == dev
    {
      this.dev := dev;
    }

    /** Since `base`, just these bytes have been sent, all with the chip select as it is now. */
    ghost predicate Sending(base: seq<Exchange>, bytes: seq<Byte>)
      reads dev
    {
      dev.busy == 0 && dev.transcript == base + Span(dev.CsN(), bytes, dev.miso, |base|)
    }

    method Transfer(data: Byte, ghost base: seq<Exchange>, ghost bytes: seq<Byte>) returns (rx: Byte)
      requires Sending(base, bytes)
      modifies dev`busy, dev`received, dev`transcript
      ensures Sending(base, bytes + [data]) && rx == dev.miso(|base| + |bytes|)
    {
      SpanSnoc(dev.CsN(), bytes, data, dev.miso, base);
      dev.WriteData(data);
      var waiting := true;
      while waiting
        invariant waiting || dev.busy == 0
        modifies dev`busy
        decreases dev.busy, waiting
      {
        var ctrl := dev.ReadCtrl();
        BusyBit(dev.ctrl);
        waiting := ctrl & 2 != 0;
      }
      rx := dev.ReadData();
    }

    /** n times 0xFF, whatever comes back. */
    method TransferFill(n: nat, ghost base: seq<Exchange>, ghost bytes: seq<Byte>)
      requires Sending(base, bytes)
      modifies dev`busy, dev`received, dev`transcript
      ensures Sending(base, bytes + Fill(n))
    {
      assert bytes + Fill(0) == bytes;
      for i := 0 to n
        invariant Sending(base, bytes + Fill(i))
      {
        var rx := Transfer(0xFF, base, bytes + Fill(i));
        assert bytes + Fill(i + 1) == bytes + Fill(i) + [0xFF];
      }
    }

    method Select()
      requires dev.busy == 0
      modifies dev`ctrl, dev`busy
      ensures dev.busy == 0 && !dev.CsN() && dev.Divider() == old(dev.Divider())
    {
      var ctrl := dev.ReadCtrl();
      ctrl := ctrl & 0xFFFF_FFFE;
      dev.WriteCtrl(ctrl);
    }

    method Deselect()
      requires dev.busy == 0
      modifies dev
      ensures dev.busy == 0 && dev.CsN() && dev.Divider() == old(dev.Divider())
      ensures dev.transcript == old(dev.transcript) + Span(true, [0xFF], dev.miso, old(|dev.transcript|))
    {
      var ctrl := dev.ReadCtrl();
      ctrl := ctrl | 1;
      dev.WriteCtrl(ctrl);
      assert dev.transcript + Span(true, [], dev.miso, |dev.transcript|) == dev.transcript;
      var rx := Transfer(0xFF, dev.transcript, []);
      assert [] + [0xFF] == [0xFF];
    }

    /** The seven bytes of a command. */
    method SendBytes(cmd: Byte, arg: nat, crc: Byte, ghost base: seq<Exchange>, ghost bytes: seq<Byte>)
      requires Sending(base, bytes)
      modifies dev`busy, dev`received, dev`transcript
      ensures Sending(base, bytes + CommandBytes(cmd, arg, crc))
    {
      CommandJoined(bytes, cmd, arg, crc);
      hide *;
      var rx := Transfer(0xFF, base, bytes);
      ghost var sent := bytes + [0xFF];
      rx := Transfer(cmd, base, sent);
      sent := sent + [cmd];
      rx := Transfer(arg / 0x100_0000 % 256, base, sent);
      sent := sent + [arg / 0x100_0000 % 256];
      rx := Transfer(arg / 0x1_0000 % 256, base, sent);
      sent := sent + [arg / 0x1_0000 % 256];
      rx := Transfer(arg / 0x100 % 256, base, sent);
      sent := sent + [arg / 0x100 % 256];
      rx := Transfer(arg % 256, base, sent);
      sent := sent + [arg % 256];
      rx := Transfer(crc, base, sent);
    }

    method SendCommand(cmd: Byte, arg: nat, crc: Byte, ghost base: seq<Exchange>, ghost bytes: seq<Byte>)
      returns (res: int)
      requires Sending(base, bytes)
      modifies dev`busy, dev`received, dev`transcript
      ensures var n := |base| + |bytes|;
              Sending(base, bytes + Sent(dev.miso, n, cmd, arg, crc)) && res == Answer(dev.miso, n)
    {
      hide Sending, CommandBytes, R1, Polls, Fill;
      ghost var n := |base| + |bytes|;
      ghost var sent := bytes + CommandBytes(cmd, arg, crc);
      SendBytes(cmd, arg, crc, base, bytes);
      FillMore(sent, 0);
      ConcatAssoc(bytes, CommandBytes(cmd, arg, crc), Fill(Polls(dev.miso, n + 7, POLLS)));
      for i := 0 to POLLS
        invariant Sending(base, sent + Fill(i))
        invariant R1(dev.miso, n + 7, POLLS) == R1(dev.miso, n + 7 + i, POLLS - i)
        invariant Polls(dev.miso, n + 7, POLLS) == i + Polls(dev.miso, n + 7 + i, POLLS - i)
      {
        PollStep(dev.miso, n + 7 + i, POLLS - i);
        res := Transfer(0xFF, base, sent + Fill(i));
        FillMore(sent, i);
        if res < 0x80 {
          return res;
        }
      }
      PollStep(dev.miso, n + 7 + POLLS, 0);
      return -1;
    }

    /** After the card has gone idle: CMD8, and the rest of its answer if it knows the command. */
    method InterfaceCondition(ghost base: seq<Exchange>, ghost bytes: seq<Byte>)
      requires Sending(base, bytes)
      modifies dev`busy, dev`received, dev`transcript
      ensures Sending(base, bytes + Cmd8Bytes(dev.miso, |base| + |bytes|))
    {
      hide Sending;
      ghost var n := |base| + |bytes|;
      ghost var sent := Sent(dev.miso, n, CMD8, 0x1AA, 0x87);
      var res := SendCommand(CMD8, 0x1AA, 0x87, base, bytes);
      assert bytes + sent + Fill(4) == bytes + (sent + Fill(4)) && sent + [] == sent;
      if res == 1 {
        TransferFill(4, base, bytes + sent);
      }
    }

    /** CMD55 and ACMD41 until the card is ready; returns how many tries are left. */
    method AwaitReady(ghost base: seq<Exchange>, ghost bytes: seq<Byte>) returns (retries: nat)
      requires Sending(base, bytes)
      modifies dev`busy, dev`received, dev`transcript
      ensures var n := |base| + |bytes|;
              Sending(base, bytes + AllPairs(dev.miso, n, Pairs(dev.miso, n, TRIES)))
              && (retries == 0 <==> !BecomesReady(dev.miso, n, TRIES))
    {
      hide Sending, PairEnd, PairBytes, Ready, Pairs, BecomesReady;
      retries := TRIES;
      var again := true;
      ghost var n, k := |base| + |bytes|, 0;
      assert bytes + AllPairs(dev.miso, n, 0) == bytes && PairsEnd(dev.miso, n, 0) == n;
      while again && retries > 0
        invariant Sending(base, bytes + AllPairs(dev.miso, n, k))
        invariant again ==> k == TRIES - retries
        invariant again ==> Pairs(dev.miso, n, TRIES) == k + Pairs(dev.miso, PairsEnd(dev.miso, n, k), retries)
        invariant again ==>
                    BecomesReady(dev.miso, n, TRIES)
                    == BecomesReady(dev.miso, PairsEnd(dev.miso, n, k), retries)
        invariant !again ==> Pairs(dev.miso, n, TRIES) == k && BecomesReady(dev.miso, n, TRIES) && retries > 0
        decreases again, retries
      {
        PairStep(dev.miso, PairsEnd(dev.miso, n, k), retries);
        var ready := SendPair(base, bytes + AllPairs(dev.miso, n, k));
        ConcatAssoc(bytes, AllPairs(dev.miso, n, k), PairBytes(dev.miso, PairsEnd(dev.miso, n, k)));
        k := k + 1;
        if ready {
          again := false;
        } else {
          retries := retries - 1;
        }
      }
      PairStep(dev.miso, PairsEnd(dev.miso, n, k), 0);
    }

    method SendPair(ghost base: seq<Exchange>, ghost bytes: seq<Byte>) returns (ready: bool)
      requires Sending(base, bytes)
      modifies dev`busy, dev`received, dev`transcript
      ensures Sending(base, bytes + PairBytes(dev.miso, |base| + |bytes|)) && ready == Ready(dev.miso, |base| + |bytes|)
    {
      hide Sending;
      ghost var n := |base| + |bytes|;
      ghost var first := Sent(dev.miso, n, CMD55, 0, 0xFF);
      var res := SendCommand(CMD55, 0, 0xFF, base, bytes);
      res := SendCommand(ACMD41, 0x4000_0000, 0xFF, base, bytes + first);
      ConcatAssoc(bytes, first, Sent(dev.miso, After(dev.miso, n), ACMD41, 0x4000_0000, 0xFF));
      ready := res == 0;
    }

    method Init() returns (res: int)
      requires dev.busy == 0
      modifies dev
      ensures dev.busy == 0 && dev.ctrl & 1 == 1 && dev.ctrl >> 16 == if res == 0 then 2 else 100
      ensures InitAt(dev.transcript, old(|dev.transcript|), res)
      ensures var n := old(|dev.transcript|) + 10;
              res == InitResult(dev.miso, n)
              && dev.transcript == Session(Clocked(old(dev.transcript), dev.miso), InitBytes(dev.miso, n), dev.miso)
    {
      hide R1, Polls, Answer, After, Sent, CommandBytes, Cmd8Bytes, AllPairs, Pairs, BecomesReady, InitAt;
      InitIs(dev.transcript, dev.miso);
      dev.WriteCtrl((100 << 16) | 1);
      NothingSent(dev.CsN(), dev.transcript, dev.miso);
      TransferFill(10, dev.transcript, []);
      assert [] + Fill(10) == Fill(10);
      ghost var base := dev.transcript;
      ghost var n := |base|;
      assert base == Clocked(old(dev.transcript), dev.miso);
      Select();
      NothingSent(dev.CsN(), base, dev.miso);
      hide Sending, Clocked;
      res := SendCommand(CMD0, 0, 0x95, base, []);
      ghost var idle := Sent(dev.miso, n, CMD0, 0, 0x95);
      assert [] + idle == idle;
      if res != 1 {
        Close(base, idle);
        return -1;
      }
      InterfaceCondition(base, idle);
      ghost var known := idle + Cmd8Bytes(dev.miso, After(dev.miso, n));
      var retries := AwaitReady(base, known);
      Close(base, InitBytes(dev.miso, n));
      if retries == 0 {
        return -2;
      }
      dev.WriteCtrl((2 << 16) | 1);
      return 0;
    }

    /** Bytes until the start token, at most as many as there are tries; returns how many are left. */
    method AwaitToken(ghost base: seq<Exchange>, ghost bytes: seq<Byte>) returns (retries: nat)
      requires Sending(base, bytes)
      modifies dev`busy, dev`received, dev`transcript
      ensures var token := TokenPolls(dev.miso, |base| + |bytes|, TRIES);
              Sending(base, bytes + Fill(Waited(token))) && (retries == 0 <==> token == None)
    {
      hide Sending, Fill, TokenPolls;
      retries := TRIES;
      var again := true;
      ghost var n, i := |base| + |bytes|, 0;
      FillMore(bytes, 0);
      while again && retries > 0
        invariant Sending(base, bytes + Fill(i))
        invariant again ==> i == TRIES - retries
        invariant again ==> TokenPolls(dev.miso, n, TRIES) == Later(TokenPolls(dev.miso, n + i, retries), i)
        invariant !again ==> TokenPolls(dev.miso, n, TRIES) == Some(i) && retries > 0
        decreases again, retries
      {
        TokenStep(dev.miso, n + i, retries);
        var token := Transfer(0xFF, base, bytes + Fill(i));
        FillMore(bytes, i);
        i := i + 1;
        if token == 0xFE {
          again := false;
        } else {
          retries := retries - 1;
        }
      }
      TokenStep(dev.miso, n + i, 0);
    }

    /** The bytes of the block, as they come. */
    method Fetch(buffer: array<Byte>, ghost base: seq<Exchange>, ghost bytes: seq<Byte>)
      requires Sending(base, bytes) && BLOCK <= buffer.Length
      modifies dev`busy, dev`received, dev`transcript, buffer
      ensures Sending(base, bytes + Fill(BLOCK))
      ensures buffer[..] == Fetched(old(buffer[..]), dev.miso, |base| + |bytes|, BLOCK)
    {
      hide Sending, Fill;
      FillMore(bytes, 0);
      ghost var n := |base| + |bytes|;
      for i := 0 to BLOCK
        invariant Sending(base, bytes + Fill(i))
        invariant buffer[..] == Fetched(old(buffer[..]), dev.miso, n, i)
      {
        var rx := Transfer(0xFF, base, bytes + Fill(i));
        FillMore(bytes, i);
        buffer[i] := rx;
      }
    }

    /** What follows a CMD17 that has been answered with 0. */
    method ReadData(buffer: array<Byte>, ghost base: seq<Exchange>, ghost bytes: seq<Byte>) returns (res: int)
      requires Sending(base, bytes) && BLOCK <= buffer.Length
      modifies dev`busy, dev`received, dev`transcript, buffer
      ensures var n := |base| + |bytes|; var token := TokenPolls(dev.miso, n, TRIES);
              Sending(base, bytes + DataBytes(token))
              && (res == if token == None then -2 else 0)
              && buffer[..] == if token == None then old(buffer[..])
                               else Fetched(old(buffer[..]), dev.miso, n + Waited(token), BLOCK)
    {
      hide Sending, Fill, TokenPolls, Fetched;
      ghost var polls := Waited(TokenPolls(dev.miso, |base| + |bytes|, TRIES));
      ghost var sent := bytes + Fill(polls);
      var retries := AwaitToken(base, bytes);
      if retries == 0 {
        assert Fill(polls) + [] == Fill(polls);
        return -2;
      }
      Fetch(buffer, base, sent);
      TransferFill(2, base, sent + Fill(BLOCK));
      ConcatAssoc(sent, Fill(BLOCK), Fill(2));
      ConcatAssoc(bytes, Fill(polls), Fill(BLOCK) + Fill(2));
      return 0;
    }

    method ReadBlock(block: nat, buffer: array?<Byte>) returns (res: int)
      requires dev.busy == 0
      requires buffer != null ==> BLOCK <= buffer.Length
      modifies dev, buffer
      ensures dev.busy == 0 && dev.Divider() == old(dev.Divider())
      ensures buffer == null ==> res == -1 && dev.transcript == old(dev.transcript) && unchanged(dev`ctrl)
      ensures buffer != null ==>
                var n := old(|dev.transcript|);
                res == ReadResult(dev.miso, n) && dev.CsN()
                && dev.transcript == Session(old(dev.transcript), ReadBytes(dev.miso, n, block), dev.miso)
                && buffer[..] == DataRead(old(buffer[..]), dev.miso, n)
      ensures buffer != null ==>
                ReadAt(dev.transcript, old(|dev.transcript|), block, res, buffer[..])
                && (res != 0 ==> buffer[..] == old(buffer[..])) && buffer[512..] == old(buffer[512..])
    {
      assert BLOCK == 512;
      hide *;
      if buffer == null {
        return -1;
      }
      ReadIs(dev.transcript, dev.miso, block, buffer[..]);
      RestKept(buffer[..], dev.miso, |dev.transcript|);
      res := ReadInto(block, buffer);
    }

    /** The rest of ReadBlock, once the buffer is known to be there. */
    method ReadInto(block: nat, buffer: array<Byte>) returns (res: int)
      requires dev.busy == 0 && BLOCK <= buffer.Length
      modifies dev, buffer
      ensures dev.busy == 0 && dev.Divider() == old(dev.Divider()) && dev.CsN()
      ensures var n := old(|dev.transcript|);
              res == ReadResult(dev.miso, n)
              && dev.transcript == Session(old(dev.transcript), ReadBytes(dev.miso, n, block), dev.miso)
              && buffer[..] == DataRead(old(buffer[..]), dev.miso, n)
    {
      hide *;
      ghost var base := dev.transcript;
      ghost var n := |base|;
      RestKept(buffer[..], dev.miso, n);
      ReadParts(dev.miso, n, block);
      Select();
      SendingStarts();
      res := SendCommand(CMD17, block, 0xFF, base, []);
      ghost var sent := Sent(dev.miso, n, CMD17, block, 0xFF);
      assert [] + sent == sent;
      if res != 0 {
        Close(base, sent);
        return -1;
      }
      res := ReadData(buffer, base, sent);
      Close(base, sent + DataBytes(TokenPolls(dev.miso, After(dev.miso, n), TRIES)));
    }

    lemma SendingStarts()
      requires dev.busy == 0
      ensures Sending(dev.transcript, [])
    {
      NothingSent(dev.CsN(), dev.transcript, dev.miso);
    }

    /** Deselect at the end of what has been sent since `base` with the card selected. */
    method Close(ghost base: seq<Exchange>, ghost bytes: seq<Byte>)
      requires Sending(base, bytes) && !dev.CsN()
      modifies dev
      ensures dev.busy == 0 && dev.CsN() && dev.Divider() == old(dev.Divider())
      ensures dev.transcript == Session(base, bytes, dev.miso)
    {
      Deselect();
    }
  }
}
