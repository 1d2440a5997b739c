/** What a transcript of the driver says, exchange by exchange. */
module SdTranscript {
  import opened Wrappers
  import opened SdProtocol

  // ---------------------------------------------------------------- one command

  /** Exchanges n to m - 1, all with the card selected, send one command: an idle byte, the six of the
      frame with the argument's highest byte first, and then idle bytes until the first one that
      comes back with bit 7 clear, which is the answer, or ten of them, which is no answer. */
  ghost predicate CommandAt(w: seq<Exchange>, n: nat, m: nat, cmd: nat, arg: nat, crc: nat, answer: int) {
    FrameAt(w, n, cmd, arg, crc) && AnswerAt(w, n + 7, m, answer)
  }

  ghost predicate FrameAt(w: seq<Exchange>, n: nat, cmd: nat, arg: nat, crc: nat) {
    && n + 7 <= |w| && (forall i | n <= i < n + 7 :: !w[i].csN)
    && w[n].mosi == 0xFF && w[n + 1].mosi == cmd && w[n + 6].mosi == crc
    && w[n + 2].mosi == arg / 0x100_0000 % 256 && w[n + 3].mosi == arg / 0x1_0000 % 256
    && w[n + 4].mosi == arg / 0x100 % 256 && w[n + 5].mosi == arg % 256
  }

  ghost predicate AnswerAt(w: seq<Exchange>, n: nat, m: nat, answer: int) {
    && n < m <= n + 10 && IdleAt(w, n, m)
    && (forall i | n <= i < m - 1 :: 0x80 <= w[i].miso)
    && if w[m - 1].miso < 0x80 then answer == w[m - 1].miso else m == n + 10 && answer == -1
  }

  /** Exchanges n to m - 1 are idle bytes with the card selected. */
  ghost predicate IdleAt(w: seq<Exchange>, n: nat, m: nat) {
    n <= m <= |w| && forall i | n <= i < m :: w[i].mosi == 0xFF && !w[i].csN
  }

  /** The transcript ends with the exchange n, an idle byte with the card deselected. */
  ghost predicate EndsAt(w: seq<Exchange>, n: nat) {
    |w| == n + 1 && w[n].csN && w[n].mosi == 0xFF
  }

  // ---------------------------------------------------------------- the two operations

  /** CMD55, whatever its answer, and ACMD41 with the host capacity bit. */
  ghost predicate PairAt(w: seq<Exchange>, n: nat, m: nat, ready: bool) {
    exists mid: nat, some: int, answer: int ::
      && CommandAt(w, n, mid, 0x77, 0, 0xFF, some) && CommandAt(w, mid, m, 0x69, 0x4000_0000, 0xFF, answer)
      && ready == (answer == 0)
  }

  /** Pairs from places[0] on, one after the other, all but the last not answered 0. */
  ghost predicate PairsAt(w: seq<Exchange>, places: seq<nat>, ready: bool) {
    && 2 <= |places| <= 10_001
    && forall j | 0 <= j < |places| - 1 :: PairAt(w, places[j], places[j + 1], ready && j == |places| - 2)
  }

  /** An initialization from exchange n on: 80 clocks with the card deselected; CMD0; if that is answered
      1, CMD8 and the four bytes more of its answer if that is 1; and pairs until one is answered
      0, at most 10000 of them. */
  ghost predicate InitAt(w: seq<Exchange>, n: nat, res: int) {
    n + 10 <= |w| && (forall i | n <= i < n + 10 :: w[i].csN && w[i].mosi == 0xFF) && WakesCard(w, n + 10, res)
  }

  ghost predicate WakesCard(w: seq<Exchange>, n: nat, res: int) {
    exists m: nat, answer: int ::
      && CommandAt(w, n, m, 0x40, 0, 0x95, answer)
      && if answer != 1 then res == -1 && EndsAt(w, m) else IdleCard(w, m, res)
  }

  ghost predicate IdleCard(w: seq<Exchange>, n: nat, res: int) {
    exists m: nat, answer: int ::
      && CommandAt(w, n, m, 0x48, 0x1AA, 0x87, answer) && IdleAt(w, m, if answer == 1 then m + 4 else m)
      && AsksReady(w, if answer == 1 then m + 4 else m, res)
  }

  ghost predicate AsksReady(w: seq<Exchange>, n: nat, res: int) {
    exists places: seq<nat>, ready: bool ::
      && PairsAt(w, places, ready) && places[0] == n && EndsAt(w, places[|places| - 1])
      && if ready then res == 0 else res == -2 && |places| == 10_001
  }

  /** A read from exchange n on: CMD17 with the block number; if that is answered 0, idle bytes until the
      first that comes back as 0xFE, at most 10000 of them; then 512 for the data and two more. */
  ghost predicate ReadAt(w: seq<Exchange>, n: nat, block: nat, res: int, data: seq<Byte>) {
    exists m: nat, answer: int ::
      && CommandAt(w, n, m, 0x51, block, 0xFF, answer)
      && if answer != 0 then res == -1 && EndsAt(w, m) else AwaitsToken(w, m, res, data)
  }

  ghost predicate AwaitsToken(w: seq<Exchange>, n: nat, res: int, data: seq<Byte>) {
    exists m: nat :: TokenBefore(w, n, m, res, data)
  }

  ghost predicate TokenBefore(w: seq<Exchange>, n: nat, m: nat, res: int, data: seq<Byte>) {
    && n < m <= n + 10_000 && IdleAt(w, n, m) && (forall i | n <= i < m - 1 :: w[i].miso != 0xFE)
    && if w[m - 1].miso != 0xFE then res == -2 && m == n + 10_000 && EndsAt(w, m)
       else res == 0 && IdleAt(w, m, m + 514) && EndsAt(w, m + 514) && DataAt(w, m, data)
  }

  ghost predicate DataAt(w: seq<Exchange>, n: nat, data: seq<Byte>) {
    n + 512 <= |w| && 512 <= |data| && forall i | 0 <= i < 512 :: data[i] == w[n + i].miso
  }

  // ---------------------------------------------------------------- what the driver sends says so

  /** From exchange n on the bytes are sent with the card selected, and the card gives its own back. */
  ghost predicate Carries(w: seq<Exchange>, n: nat, bytes: seq<Byte>, miso: nat -> Byte) {
    n + |bytes| <= |w| && forall i | n <= i < n + |bytes| :: w[i] == Exchange(false, bytes[i - n], miso(i))
  }

  lemma CarriesParts(w: seq<Exchange>, n: nat, a: seq<Byte>, b: seq<Byte>, miso: nat -> Byte)
    requires Carries(w, n, a + b, miso)
    ensures Carries(w, n, a, miso) && Carries(w, n + |a|, b, miso)
  {
    forall i | n <= i < n + |a| ensures w[i] == Exchange(false, a[i - n], miso(i)) {
      assert (a + b)[i - n] == a[i - n];
    }
    forall i | n + |a| <= i < n + |a| + |b| ensures w[i] == Exchange(false, b[i - n - |a|], miso(i)) {
      assert (a + b)[i - n] == b[i - n - |a|];
    }
  }

  lemma SessionCarries(before: seq<Exchange>, bytes: seq<Byte>, miso: nat -> Byte)
    ensures var w := Session(before, bytes, miso);
            before <= w && Carries(w, |before|, bytes, miso) && EndsAt(w, |before| + |bytes|)
  {
  }

  lemma FillCarried(w: seq<Exchange>, n: nat, k: nat, miso: nat -> Byte)
    requires Carries(w, n, Fill(k), miso)
    ensures IdleAt(w, n, n + k) && forall i | n <= i < n + k :: w[i].miso == miso(i)
  {
  }

  lemma {:induction false} PollsAre(miso: nat -> Byte, n: nat, tries: nat)
    requires 0 < tries
    ensures var k := Polls(miso, n, tries);
            0 < k && (forall i | n <= i < n + k - 1 :: 0x80 <= miso(i))
            && if miso(n + k - 1) < 0x80 then R1(miso, n, tries) == miso(n + k - 1)
               else k == tries && R1(miso, n, tries) == -1
    decreases tries
  {
    if 0x80 <= miso(n) && tries > 1 {
      PollsAre(miso, n + 1, tries - 1);
    }
  }

  lemma FrameIs(w: seq<Exchange>, miso: nat -> Byte, n: nat, cmd: Byte, arg: nat, crc: Byte)
    requires Carries(w, n, CommandBytes(cmd, arg, crc), miso)
    ensures FrameAt(w, n, cmd, arg, crc)
  {
    var bytes := CommandBytes(cmd, arg, crc);
    assert forall i | n <= i < n + 7 :: w[i].mosi == bytes[i - n];
  }

  lemma AnswerIs(w: seq<Exchange>, miso: nat -> Byte, n: nat)
    requires Carries(w, n, Fill(Polls(miso, n, POLLS)), miso)
    ensures AnswerAt(w, n, n + Polls(miso, n, POLLS), R1(miso, n, POLLS))
  {
    PollsAre(miso, n, POLLS);
    hide Polls, R1, IdleAt, Carries;
    FillCarried(w, n, Polls(miso, n, POLLS), miso);
  }

  lemma SentIs(w: seq<Exchange>, miso: nat -> Byte, n: nat, cmd: Byte, arg: nat, crc: Byte)
    requires Carries(w, n, Sent(miso, n, cmd, arg, crc), miso)
    ensures CommandAt(w, n, After(miso, n), cmd, arg, crc, Answer(miso, n))
  {
    hide Polls, R1, Carries, FrameAt, AnswerAt, CommandBytes, Fill;
    CarriesParts(w, n, CommandBytes(cmd, arg, crc), Fill(Polls(miso, n + 7, POLLS)), miso);
    FrameIs(w, miso, n, cmd, arg, crc);
    AnswerIs(w, miso, n + 7);
  }

  lemma PairIs(w: seq<Exchange>, miso: nat -> Byte, n: nat)
    requires Carries(w, n, PairBytes(miso, n), miso)
    ensures PairAt(w, n, PairEnd(miso, n), Ready(miso, n))
  {
    hide Carries, CommandAt, Sent, After, Answer;
    var mid := After(miso, n);
    CarriesParts(w, n, Sent(miso, n, CMD55, 0, 0xFF), Sent(miso, mid, ACMD41, 0x4000_0000, 0xFF), miso);
    SentIs(w, miso, n, CMD55, 0, 0xFF);
    SentIs(w, miso, mid, ACMD41, 0x4000_0000, 0xFF);
  }

  /** Where each pair starts, and the last one ends. */
  function Places(miso: nat -> Byte, n: nat, k: nat): (places: seq<nat>)
    ensures |places| == k + 1
  {
    seq(k + 1, j requires 0 <= j => PairsEnd(miso, n, j))
  }

  lemma {:induction false} PairsCarried(w: seq<Exchange>, miso: nat -> Byte, n: nat, k: nat)
    requires Carries(w, n, AllPairs(miso, n, k), miso)
    ensures forall j | 0 <= j < k ::
              PairAt(w, PairsEnd(miso, n, j), PairsEnd(miso, n, j + 1), ReadyAt(miso, n, j))
  {
    hide Carries, PairAt, PairBytes, PairEnd, Ready;
    if k > 0 {
      var last := PairsEnd(miso, n, k - 1);
      CarriesParts(w, n, AllPairs(miso, n, k - 1), PairBytes(miso, last), miso);
      PairsCarried(w, miso, n, k - 1);
      PairIs(w, miso, last);
    }
  }

  lemma PairsAre(w: seq<Exchange>, miso: nat -> Byte, n: nat)
    requires Carries(w, n, AllPairs(miso, n, Pairs(miso, n, TRIES)), miso)
    ensures var k := Pairs(miso, n, TRIES);
            PairsAt(w, Places(miso, n, k), BecomesReady(miso, n, TRIES))
            && (!BecomesReady(miso, n, TRIES) ==> k == 10_000)
  {
    hide Carries, AllPairs, Pairs, PairsEnd, PairAt, ReadyAt, BecomesReady;
    var k := Pairs(miso, n, TRIES);
    PairStep(miso, n, TRIES);
    ReadyIff(miso, n, TRIES);
    PairsCarried(w, miso, n, k);
    var places, ready := Places(miso, n, k), BecomesReady(miso, n, TRIES);
    forall j | 0 <= j < k ensures ReadyAt(miso, n, j) == (ready && j == k - 1) {
      var next := j + 1;
      assert next < k ==> !ReadyAt(miso, n, j);
    }
  }

  lemma ClocksGiven(before: seq<Exchange>, bytes: seq<Byte>, miso: nat -> Byte)
    ensures var w := Session(Clocked(before, miso), bytes, miso);
            |Clocked(before, miso)| == |before| + 10 <= |w|
            && forall i | |before| <= i < |before| + 10 :: w[i].csN && w[i].mosi == 0xFF
  {
    var base := Clocked(before, miso);
    SessionCarries(base, bytes, miso);
    hide Session, Carries, EndsAt;
    assert forall i | |before| <= i < |before| + 10 :: Session(base, bytes, miso)[i] == base[i];
  }

  /** Every initialization is one. */
  lemma InitIs(before: seq<Exchange>, miso: nat -> Byte)
    ensures var n := |before| + 10;
            InitAt(Session(Clocked(before, miso), InitBytes(miso, n), miso), |before|, InitResult(miso, n))
  {
    hide Session, Clocked, Carries, EndsAt, WakesCard, InitBytes, InitResult;
    var base, bytes := Clocked(before, miso), InitBytes(miso, |before| + 10);
    ClocksGiven(before, bytes, miso);
    SessionCarries(base, bytes, miso);
    InitCarried(Session(base, bytes, miso), |before| + 10, miso);
  }

  lemma InitCarried(w: seq<Exchange>, n: nat, miso: nat -> Byte)
    requires Carries(w, n, InitBytes(miso, n), miso) && EndsAt(w, n + |InitBytes(miso, n)|)
    ensures WakesCard(w, n, InitResult(miso, n))
  {
    hide Carries, CommandAt, IdleCard, EndsAt, Answer, Sent, After, AllPairs, Pairs, BecomesReady;
    var m, idle := After(miso, n), Sent(miso, n, CMD0, 0, 0x95);
    if Answer(miso, n) != 1 {
      SentIs(w, miso, n, CMD0, 0, 0x95);
      return;
    }
    var start := PairsStart(miso, n);
    var known, pairs := Cmd8Bytes(miso, m), AllPairs(miso, start, Pairs(miso, start, TRIES));
    assert InitBytes(miso, n) == idle + known + pairs;
    CarriesParts(w, n, idle + known, pairs, miso);
    CarriesParts(w, n, idle, known, miso);
    SentIs(w, miso, n, CMD0, 0, 0x95);
    IdleCarried(w, n, miso);
  }

  lemma IdleCarried(w: seq<Exchange>, n: nat, miso: nat -> Byte)
    requires Answer(miso, n) == 1 && EndsAt(w, n + |InitBytes(miso, n)|)
    requires Carries(w, After(miso, n), Cmd8Bytes(miso, After(miso, n)), miso)
    requires var start := PairsStart(miso, n);
             Carries(w, start, AllPairs(miso, start, Pairs(miso, start, TRIES)), miso)
    ensures IdleCard(w, After(miso, n), InitResult(miso, n))
  {
    hide Carries, CommandAt, EndsAt, Answer, Sent, After, AllPairs, Pairs, BecomesReady, AsksReady, IdleAt;
    var m := After(miso, n);
    var sent := Sent(miso, m, CMD8, 0x1AA, 0x87);
    var more := if Answer(miso, m) == 1 then Fill(4) else [];
    CarriesParts(w, m, sent, more, miso);
    SentIs(w, miso, m, CMD8, 0x1AA, 0x87);
    MoreIdle(w, After(miso, m), if Answer(miso, m) == 1 then 4 else 0, miso);
    AsksCarried(w, n, miso);
  }

  lemma MoreIdle(w: seq<Exchange>, n: nat, k: nat, miso: nat -> Byte)
    requires Carries(w, n, if k == 0 then [] else Fill(k), miso)
    ensures IdleAt(w, n, n + k)
  {
  }

  lemma AsksCarried(w: seq<Exchange>, n: nat, miso: nat -> Byte)
    requires Answer(miso, n) == 1 && EndsAt(w, n + |InitBytes(miso, n)|)
    requires var start := PairsStart(miso, n);
             Carries(w, start, AllPairs(miso, start, Pairs(miso, start, TRIES)), miso)
    ensures AsksReady(w, PairsStart(miso, n), InitResult(miso, n))
  {
    hide Carries, EndsAt, Answer, AllPairs, Pairs, BecomesReady, PairsAt;
    var start := PairsStart(miso, n);
    var k := Pairs(miso, start, TRIES);
    PairsAre(w, miso, start);
    var places := Places(miso, start, k);
    assert places[0] == start && places[k] == PairsEnd(miso, start, k);
    assert n + |InitBytes(miso, n)| == PairsEnd(miso, start, k);
    hide PairsStart, Places, InitBytes, PairsEnd;
    assert PairsAt(w, places, BecomesReady(miso, start, TRIES));
  }

  // ---------------------------------------------------------------- a read

  /** Every read is one. */
  lemma ReadIs(before: seq<Exchange>, miso: nat -> Byte, block: nat, was: seq<Byte>)
    requires 512 <= |was|
    ensures ReadAt(Session(before, ReadBytes(miso, |before|, block), miso), |before|, block,
                   ReadResult(miso, |before|), DataRead(was, miso, |before|))
  {
    hide Session, Carries, EndsAt, ReadAt, ReadBytes, ReadResult, DataRead;
    var bytes := ReadBytes(miso, |before|, block);
    SessionCarries(before, bytes, miso);
    ReadCarried(Session(before, bytes, miso), |before|, miso, block, was);
  }

  /** The buffer after a read. */
  function DataRead(was: seq<Byte>, miso: nat -> Byte, n: nat): seq<Byte>
    requires BLOCK <= |was|
  {
    if ReadResult(miso, n) == 0 then Fetched(was, miso, DataStart(miso, n), BLOCK) else was
  }

  lemma RestKept(was: seq<Byte>, miso: nat -> Byte, n: nat)
    requires BLOCK <= |was|
    ensures BLOCK == 512 && |DataRead(was, miso, n)| == |was| && DataRead(was, miso, n)[512..] == was[512..]
    ensures ReadResult(miso, n) != 0 ==> DataRead(was, miso, n) == was
    ensures ReadResult(miso, n) == 0 ==> DataRead(was, miso, n) == Fetched(was, miso, DataStart(miso, n), BLOCK)
  {
    hide ReadResult;
  }

  lemma ReadCarried(w: seq<Exchange>, n: nat, miso: nat -> Byte, block: nat, was: seq<Byte>)
    requires 512 <= |was| && Carries(w, n, ReadBytes(miso, n, block), miso)
    requires EndsAt(w, n + |ReadBytes(miso, n, block)|)
    ensures ReadAt(w, n, block, ReadResult(miso, n), DataRead(was, miso, n))
  {
    hide Carries, CommandAt, EndsAt, Answer, Sent, After, TokenPolls, AwaitsToken, DataBytes, Fetched;
    var m, sent := After(miso, n), Sent(miso, n, CMD17, block, 0xFF);
    if Answer(miso, n) != 0 {
      SentIs(w, miso, n, CMD17, block, 0xFF);
      return;
    }
    CarriesParts(w, n, sent, DataBytes(TokenPolls(miso, m, TRIES)), miso);
    SentIs(w, miso, n, CMD17, block, 0xFF);
    if TokenPolls(miso, m, TRIES) == None {
      NoToken(w, m, miso, was);
    } else {
      TokenCarried(w, m, miso, was);
    }
  }

  lemma NoToken(w: seq<Exchange>, n: nat, miso: nat -> Byte, was: seq<Byte>)
    requires TokenPolls(miso, n, TRIES) == None
    requires Carries(w, n, DataBytes(None), miso) && EndsAt(w, n + |DataBytes(None)|)
    ensures AwaitsToken(w, n, -2, was)
  {
    hide Carries, EndsAt, TokenPolls, Fill;
    TokenIff(miso, n, TRIES);
    assert DataBytes(None) == Fill(10_000);
    FillCarried(w, n, 10_000, miso);
    assert forall i | n <= i < n + 10_000 :: w[i].miso != 0xFE;
    assert TokenBefore(w, n, n + 10_000, -2, was);
  }

  lemma TokenCarried(w: seq<Exchange>, n: nat, miso: nat -> Byte, was: seq<Byte>)
    requires 512 <= |was| && TokenPolls(miso, n, TRIES).Some?
    requires var bytes := DataBytes(TokenPolls(miso, n, TRIES)); Carries(w, n, bytes, miso) && EndsAt(w, n + |bytes|)
    ensures AwaitsToken(w, n, 0, Fetched(was, miso, n + TokenPolls(miso, n, TRIES).value, BLOCK))
  {
    hide Carries, EndsAt, TokenPolls, Fill;
    var k := TokenPolls(miso, n, TRIES).value;
    TokenIff(miso, n, TRIES);
    CarriesParts(w, n, Fill(k), Fill(BLOCK) + Fill(2), miso);
    FillCarried(w, n, k, miso);
    CarriesParts(w, n + k, Fill(BLOCK), Fill(2), miso);
    FillCarried(w, n + k, BLOCK, miso);
    FillCarried(w, n + k + BLOCK, 2, miso);
    assert TokenBefore(w, n, n + k, 0, Fetched(was, miso, n + k, BLOCK));
  }
}
