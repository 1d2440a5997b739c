/** What the SD card driver sends, as functions of the bytes the card gives back. */
module SdProtocol {
  import opened Wrappers

  type Byte = x: nat | x < 256

  const CMD0: Byte := 0x40
  const CMD8: Byte := 0x48
  const CMD17: Byte := 0x51
  const CMD55: Byte := 0x77
  const ACMD41: Byte := 0x69
  const POLLS: nat := 10
  const TRIES: nat := 10000
  const BLOCK: nat := 512

  /** One byte exchanged: the level of the chip select (true is deselected), out and in. */
  datatype Exchange = Exchange(csN: bool, mosi: Byte, miso: Byte)

  // ---------------------------------------------------------------- what goes over the wire

  /** The exchanges when mosi is sent from the n-th byte on. */
  function Span(csN: bool, mosi: seq<Byte>, miso: nat -> Byte, n: nat): (span: seq<Exchange>)
    ensures |span| == |mosi|
  {
    seq(|mosi|, i requires 0 <= i < |mosi| => Exchange(csN, mosi[i], miso(n + i)))
  }

  function Fill(n: nat): (s: seq<Byte>)
    ensures |s| == n
  {
    seq(n, _ => 0xFF)
  }

  function CommandBytes(cmd: Byte, arg: nat, crc: Byte): (s: seq<Byte>)
    ensures |s| == 7
  {
    [0xFF, cmd, arg / 0x100_0000 % 256, arg / 0x1_0000 % 256, arg / 0x100 % 256, arg % 256, crc]
  }

  /** How many bytes are polled from the n-th on for a byte with bit 7 clear, at most `tries`. */
  function Polls(miso: nat -> Byte, n: nat, tries: nat): (k: nat)
    ensures k <= tries
    decreases tries
  {
    if tries == 0 then 0 else if miso(n) < 0x80 then 1 else 1 + Polls(miso, n + 1, tries - 1)
  }

  /** The first byte with bit 7 clear among the `tries` from the n-th on, or -1. */
  function R1(miso: nat -> Byte, n: nat, tries: nat): int
    decreases tries
  {
    if tries == 0 then -1 else if miso(n) < 0x80 then miso(n) else R1(miso, n + 1, tries - 1)
  }

  /** The i-th byte is the first from the n-th on with bit 7 clear. */
  ghost predicate FirstClear(miso: nat -> Byte, n: nat, i: nat) {
    n <= i && miso(i) < 0x80 && forall j | n <= j < i :: 0x80 <= miso(j)
  }

  /** The driver's answer is r just when the first byte with bit 7 clear is among those polled and is r. */
  lemma {:induction false} R1Iff(miso: nat -> Byte, n: nat, tries: nat, r: nat)
    ensures R1(miso, n, tries) == r <==> exists i | n <= i < n + tries :: FirstClear(miso, n, i) && miso(i) == r
    decreases tries
  {
    if tries > 0 {
      if miso(n) < 0x80 {
        assert FirstClear(miso, n, n);
      } else {
        R1Iff(miso, n + 1, tries - 1, r);
        forall i | n < i ensures FirstClear(miso, n, i) <==> FirstClear(miso, n + 1, i) {}
      }
    }
  }

  /** Where a command at the n-th place ends with the polls for its answer, and its bytes. */
  function After(miso: nat -> Byte, n: nat): (m: nat)
    ensures n + 7 <= m <= n + 17
  {
    n + 7 + Polls(miso, n + 7, POLLS)
  }

  function Sent(miso: nat -> Byte, n: nat, cmd: Byte, arg: nat, crc: Byte): (s: seq<Byte>)
    ensures |s| == After(miso, n) - n
  {
    CommandBytes(cmd, arg, crc) + Fill(Polls(miso, n + 7, POLLS))
  }

  function Answer(miso: nat -> Byte, n: nat): int {
    R1(miso, n + 7, POLLS)
  }

  /** CMD55 and ACMD41 from the n-th place on, at most `tries` times, until ACMD41 answers 0. */
  function PairEnd(miso: nat -> Byte, n: nat): (m: nat)
    ensures n < m <= n + 34
  {
    After(miso, After(miso, n))
  }

  predicate Ready(miso: nat -> Byte, n: nat) {
    Answer(miso, After(miso, n)) == 0
  }

  function PairBytes(miso: nat -> Byte, n: nat): (s: seq<Byte>)
    ensures |s| == PairEnd(miso, n) - n
  {
    Sent(miso, n, CMD55, 0, 0xFF) + Sent(miso, After(miso, n), ACMD41, 0x4000_0000, 0xFF)
  }

  function Pairs(miso: nat -> Byte, n: nat, tries: nat): (k: nat)
    ensures k <= tries
    decreases tries
  {
    if tries == 0 then 0 else if Ready(miso, n) then 1 else 1 + Pairs(miso, PairEnd(miso, n), tries - 1)
  }

  predicate BecomesReady(miso: nat -> Byte, n: nat, tries: nat)
    decreases tries
  {
    tries > 0 && (Ready(miso, n) || BecomesReady(miso, PairEnd(miso, n), tries - 1))
  }

  /** All bytes of the first k pairs, and where they end. */
  function AllPairs(miso: nat -> Byte, n: nat, k: nat): (s: seq<Byte>)
    ensures |s| == PairsEnd(miso, n, k) - n
  {
    if k == 0 then [] else AllPairs(miso, n, k - 1) + PairBytes(miso, PairsEnd(miso, n, k - 1))
  }

  function PairsEnd(miso: nat -> Byte, n: nat, k: nat): (m: nat)
    ensures n <= m <= n + 34 * k
  {
    if k == 0 then n else PairEnd(miso, PairsEnd(miso, n, k - 1))
  }

  lemma {:induction false} PairsEndFront(miso: nat -> Byte, n: nat, k: nat)
    ensures PairsEnd(miso, n, k + 1) == PairsEnd(miso, PairEnd(miso, n), k)
    decreases k
  {
    hide PairEnd;
    if k > 0 {
      PairsEndFront(miso, n, k - 1);
    } else {
      assert PairsEnd(miso, n, 0) == n;
    }
  }

  /** The j-th ACMD41 answers 0. */
  ghost predicate ReadyAt(miso: nat -> Byte, n: nat, j: nat) {
    Ready(miso, PairsEnd(miso, n, j))
  }

  lemma ReadyAtFront(miso: nat -> Byte, n: nat, j: nat)
    ensures ReadyAt(miso, n, 0) == Ready(miso, n)
    ensures ReadyAt(miso, n, j + 1) == ReadyAt(miso, PairEnd(miso, n), j)
  {
    PairsEndFront(miso, n, j);
  }

  /** The card becomes ready within the tries just when one of those ACMD41s answers 0, and the
      pairs sent are those up to the first that does, or all of them. */
  lemma {:induction false} ReadyIff(miso: nat -> Byte, n: nat, tries: nat)
    ensures BecomesReady(miso, n, tries) <==> exists j: nat | j < tries :: ReadyAt(miso, n, j)
    ensures BecomesReady(miso, n, tries) ==> 0 < Pairs(miso, n, tries) && ReadyAt(miso, n, Pairs(miso, n, tries) - 1)
    ensures forall j: nat | j + 1 < Pairs(miso, n, tries) :: !ReadyAt(miso, n, j)
    ensures !BecomesReady(miso, n, tries) ==> Pairs(miso, n, tries) == tries
    decreases tries
  {
    hide PairsEnd, PairEnd, Ready, ReadyAt;
    ReadyAtFront(miso, n, 0);
    if tries > 0 && !Ready(miso, n) {
      var m, k := PairEnd(miso, n), Pairs(miso, n, tries);
      ReadyIff(miso, m, tries - 1);
      forall j: nat ensures ReadyAt(miso, n, j + 1) == ReadyAt(miso, m, j) {
        ReadyAtFront(miso, n, j);
      }
      if j: nat :| j < tries - 1 && ReadyAt(miso, m, j) {
        assert ReadyAt(miso, n, j + 1);
      }
      if j: nat :| j < tries && ReadyAt(miso, n, j) {
        assert j > 0 && ReadyAt(miso, m, j - 1) by {
          assert ReadyAt(miso, n, j - 1 + 1) == ReadyAt(miso, m, j - 1);
        }
      }
      forall j: nat | j + 1 < k ensures !ReadyAt(miso, n, j) {
        if j > 0 {
          assert ReadyAt(miso, n, j - 1 + 1) == ReadyAt(miso, m, j - 1);
        }
      }
      if BecomesReady(miso, n, tries) {
        assert ReadyAt(miso, n, k - 2 + 1) == ReadyAt(miso, m, k - 2);
      }
    }
  }

  // ---------------------------------------------------------------- what the driver does

  /** Where the answer to CMD8 has been read, with its four bytes more if it was 1. */
  function Cmd8Bytes(miso: nat -> Byte, n: nat): seq<Byte> {
    Sent(miso, n, CMD8, 0x1AA, 0x87) + if Answer(miso, n) == 1 then Fill(4) else []
  }

  /** All bytes Init sends with the card selected, the first of them at the n-th place. */
  function InitBytes(miso: nat -> Byte, n: nat): seq<Byte> {
    var idle := Sent(miso, n, CMD0, 0, 0x95);
    if Answer(miso, n) != 1 then idle
    else
      var start := PairsStart(miso, n);
      idle + Cmd8Bytes(miso, After(miso, n)) + AllPairs(miso, start, Pairs(miso, start, TRIES))
  }

  /** Where the first CMD55 goes. */
  function PairsStart(miso: nat -> Byte, n: nat): (m: nat)
    ensures n + 14 <= m <= n + 38
  {
    After(miso, n) + |Cmd8Bytes(miso, After(miso, n))|
  }

  function InitResult(miso: nat -> Byte, n: nat): int {
    if Answer(miso, n) != 1 then -1 else if BecomesReady(miso, PairsStart(miso, n), TRIES) then 0 else -2
  }

  /** How many bytes are polled for the start token, if it comes within the tries. */
  function TokenPolls(miso: nat -> Byte, n: nat, tries: nat): (k: Option<nat>)
    ensures k.Some? ==> 0 < k.value <= tries
    decreases tries
  {
    if tries == 0 then None else if miso(n) == 0xFE then Some(1)
    else match TokenPolls(miso, n + 1, tries - 1) case None => None case Some(k) => Some(k + 1)
  }

  lemma {:induction false} TokenIff(miso: nat -> Byte, n: nat, tries: nat)
    ensures TokenPolls(miso, n, tries) == None <==> forall i | n <= i < n + tries :: miso(i) != 0xFE
    ensures var k := TokenPolls(miso, n, tries);
            k.Some? ==> miso(n + k.value - 1) == 0xFE && forall i | n <= i < n + k.value - 1 :: miso(i) != 0xFE
    decreases tries
  {
    if tries > 0 && miso(n) != 0xFE {
      TokenIff(miso, n + 1, tries - 1);
    }
  }

  /** How many bytes are read while waiting for the token. */
  function Waited(token: Option<nat>): nat {
    match token case None => TRIES case Some(k) => k
  }

  function Later(token: Option<nat>, i: nat): Option<nat> {
    match token case None => None case Some(k) => Some(i + k)
  }

  /** The bytes sent while waiting for the token and, if it came, for the block and its checksum. */
  function DataBytes(token: Option<nat>): seq<Byte> {
    Fill(Waited(token)) + if token == None then [] else Fill(BLOCK) + Fill(2)
  }

  /** All bytes ReadBlock sends with the card selected. */
  function ReadBytes(miso: nat -> Byte, n: nat, block: nat): seq<Byte> {
    var command := Sent(miso, n, CMD17, block, 0xFF);
    if Answer(miso, n) != 0 then command else command + DataBytes(TokenPolls(miso, After(miso, n), TRIES))
  }

  function ReadResult(miso: nat -> Byte, n: nat): int {
    if Answer(miso, n) != 0 then -1 else if TokenPolls(miso, After(miso, n), TRIES).Some? then 0 else -2
  }

  /** The place right after the start token. */
  function DataStart(miso: nat -> Byte, n: nat): nat
    requires TokenPolls(miso, After(miso, n), TRIES).Some?
  {
    After(miso, n) + TokenPolls(miso, After(miso, n), TRIES).value
  }

  /** One selection of the card: the bytes with the select low, then one more byte of clocks with it high. */
  function Session(before: seq<Exchange>, bytes: seq<Byte>, miso: nat -> Byte): seq<Exchange> {
    before + Span(false, bytes, miso, |before|) + Span(true, [0xFF], miso, |before| + |bytes|)
  }

  /** The clocks the card is given before its first selection. */
  function Clocked(before: seq<Exchange>, miso: nat -> Byte): seq<Exchange> {
    before + Span(true, Fill(10), miso, |before|)
  }

  /** The buffer with its first k bytes replaced by those the card gives back from the n-th on. */
  function Fetched(buffer: seq<Byte>, miso: nat -> Byte, n: nat, k: nat): (s: seq<Byte>)
    requires k <= |buffer|
    ensures |s| == |buffer|
  {
    seq(|buffer|, i requires 0 <= i < |buffer| => if i < k then miso(n + i) else buffer[i])
  }

  lemma SpanSnoc(csN: bool, mosi: seq<Byte>, b: Byte, miso: nat -> Byte, base: seq<Exchange>)
    ensures base + Span(csN, mosi + [b], miso, |base|)
            == base + Span(csN, mosi, miso, |base|) + [Exchange(csN, b, miso(|base| + |mosi|))]
  {
    assert Span(csN, mosi + [b], miso, |base|) == Span(csN, mosi, miso, |base|)
      + [Exchange(csN, b, miso(|base| + |mosi|))];
  }

  // ---------------------------------------------------------------- step by step

  lemma PollStep(miso: nat -> Byte, n: nat, tries: nat)
    ensures R1(miso, n, tries) == if tries == 0 then -1 else if miso(n) < 0x80 then miso(n)
            else R1(miso, n + 1, tries - 1)
    ensures Polls(miso, n, tries)
            == if tries == 0 then 0 else if miso(n) < 0x80 then 1 else 1 + Polls(miso, n + 1, tries - 1)
  {
  }

  lemma PairStep(miso: nat -> Byte, n: nat, tries: nat)
    ensures Pairs(miso, n, tries)
            == if tries == 0 then 0 else if Ready(miso, n) then 1 else 1 + Pairs(miso, PairEnd(miso, n), tries - 1)
    ensures BecomesReady(miso, n, tries)
            == (tries > 0 && (Ready(miso, n) || BecomesReady(miso, PairEnd(miso, n), tries - 1)))
  {
  }

  lemma TokenStep(miso: nat -> Byte, n: nat, tries: nat)
    ensures TokenPolls(miso, n, tries)
            == if tries == 0 then None else if miso(n) == 0xFE then Some(1)
              else Later(TokenPolls(miso, n + 1, tries - 1), 1)
  {
  }

  lemma FillMore(bytes: seq<Byte>, i: nat)
    ensures bytes + Fill(0) == bytes && bytes + Fill(i) + [0xFF] == bytes + Fill(i + 1)
  {
  }

  lemma NothingSent(csN: bool, base: seq<Exchange>, miso: nat -> Byte)
    ensures base + Span(csN, [], miso, |base|) == base
  {
  }

  lemma CommandJoined(bytes: seq<Byte>, cmd: Byte, arg: nat, crc: Byte)
    ensures bytes + [0xFF] + [cmd] + [arg / 0x100_0000 % 256] + [arg / 0x1_0000 % 256] + [arg / 0x100 % 256]
            + [arg % 256] + [crc]
            == bytes + CommandBytes(cmd, arg, crc)
  {
  }

  lemma ReadParts(miso: nat -> Byte, n: nat, block: nat)
    ensures var sent, token := Sent(miso, n, CMD17, block, 0xFF), TokenPolls(miso, After(miso, n), TRIES);
            && |sent| == After(miso, n) - n
            && ReadBytes(miso, n, block) == (if Answer(miso, n) != 0 then sent else sent + DataBytes(token))
            && ReadResult(miso, n) == (if Answer(miso, n) != 0 then -1 else if token == None then -2 else 0)
            && (token != None ==> DataStart(miso, n) == After(miso, n) + Waited(token))
  {
  }
}
