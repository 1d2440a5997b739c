/** What an SD card makes of the bytes the driver sends, and what the driver's results mean. */
module SdCommands {
  import opened Common
  import opened SdProtocol

  datatype Command = Command(cmd: Byte, arg: nat, crc: Byte)

  // ---------------------------------------------------------------- the card's side

  /** The bytes sent while the card is selected. */
  function Seen(wire: seq<Exchange>): seq<Byte> {
    if wire == [] then []
    else Seen(wire[..|wire| - 1]) + var last := wire[|wire| - 1]; if last.csN then [] else [last.mosi]
  }

  /** The commands in a stream of bytes: frames of six bytes of which the first starts with bits 01
      (section 7.3.1.1 of the SD Physical Layer Simplified Specification), idle bytes between them. */
  function Parse(bytes: seq<Byte>): seq<Command>
    decreases |bytes|
  {
    if bytes == [] then []
    else if 0x40 <= bytes[0] < 0x80 && |bytes| >= 6 then
      var arg := bytes[1] as int * 0x100_0000 + bytes[2] as int * 0x1_0000 + bytes[3] as int * 0x100 + bytes[4] as int;
      [Command(bytes[0], arg, bytes[5])] + Parse(bytes[6..])
    else Parse(bytes[1..])
  }

  lemma {:induction false} SeenConcat(a: seq<Exchange>, b: seq<Exchange>)
    ensures Seen(a + b) == Seen(a) + Seen(b)
    decreases |b|
  {
    if b == [] {
      assert a + b == a;
    } else {
      SeenConcat(a, b[..|b| - 1]);
      assert (a + b)[..|a + b| - 1] == a + b[..|b| - 1];
    }
  }

  lemma {:induction false} SeenSpan(csN: bool, mosi: seq<Byte>, miso: nat -> Byte, n: nat)
    ensures Seen(Span(csN, mosi, miso, n)) == if csN then [] else mosi
    decreases |mosi|
  {
    if mosi != [] {
      var front, span := mosi[..|mosi| - 1], Span(csN, mosi, miso, n);
      SeenSpan(csN, front, miso, n);
      assert span[..|span| - 1] == Span(csN, front, miso, n);
      assert front + [mosi[|mosi| - 1]] == mosi;
    }
  }

  /** Of one selection the card sees the bytes sent while it is selected, and nothing else. */
  lemma SeenSession(before: seq<Exchange>, bytes: seq<Byte>, miso: nat -> Byte)
    ensures Seen(Session(before, bytes, miso)) == Seen(before) + bytes
  {
    var low, high := Span(false, bytes, miso, |before|), Span(true, [0xFF], miso, |before| + |bytes|);
    SeenConcat(before + low, high);
    SeenConcat(before, low);
    SeenSpan(false, bytes, miso, |before|);
    SeenSpan(true, [0xFF], miso, |before| + |bytes|);
  }

  // ---------------------------------------------------------------- commands come through

  lemma {:induction false} ParseFill(k: nat, rest: seq<Byte>)
    ensures Parse(Fill(k) + rest) == Parse(rest)
    decreases k
  {
    if k == 0 {
      assert Fill(0) + rest == rest;
    } else {
      ParseFill(k - 1, rest);
      assert (Fill(k) + rest)[1..] == Fill(k - 1) + rest;
    }
  }

  lemma BigEndian(arg: nat)
    requires arg < 0x1_0000_0000
    ensures arg / 0x100_0000 % 256 * 0x100_0000 + arg / 0x1_0000 % 256 * 0x1_0000 + arg / 0x100 % 256 * 0x100
            + arg % 256 == arg
  {
  }

  lemma ParseSent(miso: nat -> Byte, n: nat, cmd: Byte, arg: nat, crc: Byte, rest: seq<Byte>)
    requires 0x40 <= cmd < 0x80 && arg < 0x1_0000_0000
    ensures Parse(Sent(miso, n, cmd, arg, crc) + rest) == [Command(cmd, arg, crc)] + Parse(rest)
  {
    var fill := Fill(Polls(miso, n + 7, POLLS));
    var sent := CommandBytes(cmd, arg, crc);
    var bytes := Sent(miso, n, cmd, arg, crc) + rest;
    BigEndian(arg);
    assert bytes == sent + (fill + rest);
    assert bytes[1..][6..] == fill + rest;
    assert bytes[0] == 0xFF && bytes[1..][..6] == sent[1..];
    ParseFill(Polls(miso, n + 7, POLLS), rest);
  }

  /** CMD55 and ACMD41 with the host capacity bit, k times. */
  function PairCommands(k: nat): (s: seq<Command>)
    ensures |s| == 2 * k
  {
    if k == 0 then [] else PairCommands(k - 1) + [Command(0x77, 0, 0xFF), Command(0x69, 0x4000_0000, 0xFF)]
  }

  lemma ParsePair(miso: nat -> Byte, n: nat, rest: seq<Byte>)
    ensures Parse(PairBytes(miso, n) + rest) == [Command(CMD55, 0, 0xFF), Command(ACMD41, 0x4000_0000, 0xFF)]
            + Parse(rest)
  {
    hide Parse, Sent, After;
    var first, second := Sent(miso, n, CMD55, 0, 0xFF), Sent(miso, After(miso, n), ACMD41, 0x4000_0000, 0xFF);
    ConcatAssoc(first, second, rest);
    ParseSent(miso, n, CMD55, 0, 0xFF, second + rest);
    ParseSent(miso, After(miso, n), ACMD41, 0x4000_0000, 0xFF, rest);
  }

  lemma {:induction false} ParsePairs(miso: nat -> Byte, n: nat, k: nat, rest: seq<Byte>)
    ensures Parse(AllPairs(miso, n, k) + rest) == PairCommands(k) + Parse(rest)
    decreases k
  {
    hide Parse, PairBytes, PairsEnd;
    if k == 0 {
      assert AllPairs(miso, n, 0) + rest == rest;
    } else {
      var pair := PairBytes(miso, PairsEnd(miso, n, k - 1));
      ParsePairs(miso, n, k - 1, pair + rest);
      ConcatAssoc(AllPairs(miso, n, k - 1), pair, rest);
      ParsePair(miso, PairsEnd(miso, n, k - 1), rest);
    }
  }

  // ---------------------------------------------------------------- the two operations on the wire

  /** All the exchanges of Init and of ReadBlock after those before it. */
  function InitWire(before: seq<Exchange>, miso: nat -> Byte): seq<Exchange> {
    Session(Clocked(before, miso), InitBytes(miso, |before| + 10), miso)
  }

  function ReadWire(before: seq<Exchange>, miso: nat -> Byte, block: nat): seq<Exchange> {
    Session(before, ReadBytes(miso, |before|, block), miso)
  }

  lemma InitParsed(miso: nat -> Byte, n: nat)
    ensures Parse(InitBytes(miso, n)) ==
            [Command(0x40, 0, 0x95)]
            + if Answer(miso, n) != 1 then []
              else [Command(0x48, 0x1AA, 0x87)] + PairCommands(Pairs(miso, PairsStart(miso, n), TRIES))
  {
    hide Parse, Sent, Answer, AllPairs, Pairs, After, PairCommands;
    var idle, m := Sent(miso, n, CMD0, 0, 0x95), After(miso, n);
    assert Parse([]) == [] by {
      NothingParsed();
    }
    if Answer(miso, n) != 1 {
      assert idle + [] == idle;
      ParseSent(miso, n, CMD0, 0, 0x95, []);
    } else {
      var start := PairsStart(miso, n);
      var pairs, sent := AllPairs(miso, start, Pairs(miso, start, TRIES)), Sent(miso, m, CMD8, 0x1AA, 0x87);
      var more := if Answer(miso, m) == 1 then Fill(4) else [];
      assert InitBytes(miso, n) == idle + (sent + (more + pairs));
      ParseSent(miso, n, CMD0, 0, 0x95, sent + (more + pairs));
      ParseSent(miso, m, CMD8, 0x1AA, 0x87, more + pairs);
      assert [] + pairs == pairs == pairs + [];
      if Answer(miso, m) == 1 {
        ParseFill(4, pairs);
      }
      ParsePairs(miso, start, Pairs(miso, start, TRIES), []);
    }
  }

  lemma NothingParsed()
    ensures Parse([]) == []
  {
  }

  /** What a card recovers from the exchanges since `before`. */
  function Recovered(before: seq<Exchange>, wire: seq<Exchange>): seq<Command>
    requires before <= wire
  {
    Parse(Seen(wire[|before|..]))
  }

  lemma SeenSince(before: seq<Exchange>, wire: seq<Exchange>, bytes: seq<Byte>)
    requires before <= wire && Seen(wire) == Seen(before) + bytes
    ensures Seen(wire[|before|..]) == bytes
  {
    hide Seen;
    SeenConcat(before, wire[|before|..]);
    assert before + wire[|before|..] == wire;
    assert (Seen(before) + bytes)[|Seen(before)|..] == bytes;
    assert (Seen(before) + Seen(wire[|before|..]))[|Seen(before)|..] == Seen(wire[|before|..]);
  }

  /** A card recovers just the driver's commands from an initialization: CMD0, then if that was
      answered 1 CMD8 and between one and 10000 pairs of CMD55 and ACMD41. */
  lemma InitCommands(before: seq<Exchange>, miso: nat -> Byte)
    ensures var wire, n := InitWire(before, miso), |before| + 10;
            var pairs := PairCommands(Pairs(miso, PairsStart(miso, n), TRIES));
            before <= wire
            && Recovered(before, wire) == [Command(0x40, 0, 0x95)]
                                          + if Answer(miso, n) != 1 then [] else [Command(0x48, 0x1AA, 0x87)] + pairs
    ensures 1 <= Pairs(miso, PairsStart(miso, |before| + 10), TRIES) <= 10_000
  {
    var n := |before| + 10;
    PairStep(miso, PairsStart(miso, n), TRIES);
    hide *;
    SeenClocked(before, miso);
    SeenSession(Clocked(before, miso), InitBytes(miso, n), miso);
    InitParsed(miso, n);
    InitExtends(before, miso);
    SeenSince(before, InitWire(before, miso), InitBytes(miso, n));
    RecoveredIs(before, InitWire(before, miso));
  }

  lemma SeenClocked(before: seq<Exchange>, miso: nat -> Byte)
    ensures Seen(Clocked(before, miso)) == Seen(before)
  {
    SeenConcat(before, Span(true, Fill(10), miso, |before|));
    SeenSpan(true, Fill(10), miso, |before|);
  }

  lemma InitExtends(before: seq<Exchange>, miso: nat -> Byte)
    ensures InitWire(before, miso) == Session(Clocked(before, miso), InitBytes(miso, |before| + 10), miso)
    ensures before <= InitWire(before, miso) && TRIES == 10_000
  {
  }

  lemma RecoveredIs(before: seq<Exchange>, wire: seq<Exchange>)
    requires before <= wire
    ensures Recovered(before, wire) == Parse(Seen(wire[|before|..]))
  {
  }

  /** A card recovers CMD17 with the whole block number, and nothing else, from a read. */
  lemma ReadCommands(before: seq<Exchange>, miso: nat -> Byte, block: nat)
    requires block < 0x1_0000_0000
    ensures var wire := ReadWire(before, miso, block);
            before <= wire && Recovered(before, wire) == [Command(0x51, block, 0xFF)]
  {
    hide Parse, Sent, Answer, After, TokenPolls, Seen;
    var bytes := ReadBytes(miso, |before|, block);
    var sent := Sent(miso, |before|, CMD17, block, 0xFF);
    SeenSession(before, bytes, miso);
    NothingParsed();
    var k := |bytes| - |sent|;
    assert bytes == sent + Fill(k);
    ParseSent(miso, |before|, CMD17, block, 0xFF, Fill(k));
    assert Fill(k) + [] == Fill(k);
    ParseFill(k, []);
    SeenSince(before, ReadWire(before, miso, block), bytes);
  }

  // ---------------------------------------------------------------- clocks and bounds

  /** 80 clocks pass with the card deselected before it is first selected (section 6.4.1 of the SD
      Physical Layer Simplified Specification asks for 74), both operations end deselected, and
      neither exchanges more than so many bytes, whatever the card does. */
  lemma WireBounds(before: seq<Exchange>, miso: nat -> Byte, block: nat)
    ensures var wire := InitWire(before, miso);
            before <= wire && |before| + 18 <= |wire| <= |before| + 340_049
            && (forall i | |before| <= i < |before| + 10 :: wire[i].csN && wire[i].mosi == 0xFF)
            && !wire[|before| + 10].csN && wire[|wire| - 1].csN && wire[|wire| - 1].mosi == 0xFF
    ensures var wire := ReadWire(before, miso, block);
            before <= wire && |before| + 8 <= |wire| <= |before| + 10_532
            && !wire[|before|].csN && wire[|wire| - 1].csN && wire[|wire| - 1].mosi == 0xFF
  {
    hide Answer, Pairs, AllPairs, PairsEnd, TokenPolls, CommandBytes, Polls;
  }

  // ---------------------------------------------------------------- what the results mean

  /** Init fails with -1 just when the card does not go idle; else it succeeds just when some ACMD41
      within the tries answers 0, and fails with -2 just when all 10000 do not. */
  lemma InitMeaning(miso: nat -> Byte, n: nat)
    ensures InitResult(miso, n) == -1 <==> Answer(miso, n) != 1
    ensures InitResult(miso, n) == 0 <==>
            Answer(miso, n) == 1 && exists j: nat | j < 10_000 :: ReadyAt(miso, PairsStart(miso, n), j)
    ensures InitResult(miso, n) == -2 <==>
            Answer(miso, n) == 1 && forall j: nat | j < 10_000 :: !ReadyAt(miso, PairsStart(miso, n), j)
  {
    hide BecomesReady, ReadyAt, Answer, PairsStart;
    ReadyIff(miso, PairsStart(miso, n), TRIES);
  }

  /** If the i-th byte is the first clear one among those polled, polling ends right after it. */
  lemma {:induction false} PollsEnd(miso: nat -> Byte, n: nat, tries: nat, i: nat)
    requires FirstClear(miso, n, i) && i < n + tries
    ensures Polls(miso, n, tries) == i - n + 1 && R1(miso, n, tries) == miso(i)
    decreases tries
  {
    if n < i {
      PollsEnd(miso, n + 1, tries - 1, i);
    }
  }

  /** The j-th byte is the first start token from the n-th on. */
  ghost predicate FirstToken(miso: nat -> Byte, n: nat, j: nat) {
    n <= j && miso(j) == 0xFE && forall k | n <= k < j :: miso(k) != 0xFE
  }

  /** After a command of seven bytes from the n-th on the i-th byte answers 0, the first with bit 7 clear and
      among the first 10, and the j-th is the first start token after it and among the next 10000. */
  ghost predicate Delivers(miso: nat -> Byte, n: nat, i: nat, j: nat) {
    n + 7 <= i < n + 17 && FirstClear(miso, n + 7, i) && miso(i) == 0 && j <= i + 10_000 && FirstToken(miso, i + 1, j)
  }

  /** ReadBlock succeeds just when the card answers 0 in time and then sends the start token (section
      7.3.3.2 of the SD Physical Layer Simplified Specification) in time; the data starts right after it. */
  lemma ReadMeaning(miso: nat -> Byte, n: nat)
    ensures ReadResult(miso, n) == 0 <==> exists i: nat, j: nat :: Delivers(miso, n, i, j)
    ensures forall i: nat, j: nat | Delivers(miso, n, i, j) :: ReadResult(miso, n) == 0 && DataStart(miso, n) == j + 1
  {
    hide R1, Polls, TokenPolls, FirstClear;
    R1Iff(miso, n + 7, POLLS, 0);
    TokenIff(miso, After(miso, n), TRIES);
    forall i: nat, j: nat | Delivers(miso, n, i, j) ensures ReadResult(miso, n) == 0 && DataStart(miso, n) == j + 1 {
      PollsEnd(miso, n + 7, POLLS, i);
    }
    if ReadResult(miso, n) == 0 {
      var i :| n + 7 <= i < n + 7 + POLLS && FirstClear(miso, n + 7, i) && miso(i) == 0;
      PollsEnd(miso, n + 7, POLLS, i);
      assert Delivers(miso, n, i, DataStart(miso, n) - 1);
    }
  }
}
