/** The messages between a test and the cached burst master (16 data fields), and the 64-byte
    burst procedures built on them. */
module BurstMessages {
  import opened Common
  import opened TileLink
  import opened BurstCommands
  import opened BurstMemory

  const FIELDS := 16

  datatype Item =
    OfAddress(address: Address) | OfWord(word: Word) | OfMask(mask: Mask) | OfCode(code: Code) | OfFlag(flag: bool)

  /** A message: a queue of items. */
  class Message {
    var items: seq<Item>

    constructor ()
      ensures items == []
    {
      items := [];
    }

    method Push(item: Item)
      modifies this
      ensures items == old(items) + [item]
    {
      items := items + [item];
    }

    method Pop() returns (item: Item)
      requires items != []
      modifies this
      ensures item == old(items)[0] && items == old(items)[1..]
    {
      item := items[0];
      items := items[1..];
    }
  }

  function WordItems(words: seq<Word>): (items: seq<Item>)
    ensures |items| == |words|
  {
    seq(|words|, i requires 0 <= i < |words| => OfWord(words[i]))
  }

  function Encoded(cmd: Command): seq<Item> {
    [OfAddress(cmd.adr)] + WordItems(cmd.dat)
    + [OfMask(cmd.sel), OfCode(cmd.size), OfFlag(cmd.isWrite), OfFlag(cmd.isAtomic), OfCode(cmd.opcode),
      OfCode(cmd.param)]
  }

  /** A message that decode_bus_master_c_msg can take apart. */
  predicate IsCommand(items: seq<Item>) {
    && |items| == FIELDS + 7 && items[0].OfAddress?
    && (forall i :: 1 <= i <= FIELDS ==> items[i].OfWord?)
    && items[FIELDS + 1].OfMask? && items[FIELDS + 2].OfCode?
    && items[FIELDS + 3].OfFlag? && items[FIELDS + 4].OfFlag? && items[FIELDS + 5].OfCode? && items[FIELDS + 6].OfCode?
  }

  function Decoded(items: seq<Item>): Command
    requires IsCommand(items)
  {
    Command(items[0].address, seq(FIELDS, i requires 0 <= i < FIELDS => items[i + 1].word),
            items[FIELDS + 1].mask, items[FIELDS + 2].code, items[FIELDS + 3].flag, items[FIELDS + 4].flag,
            items[FIELDS + 5].code, items[FIELDS + 6].code)
  }

  /** Which item is which: the address, the data fields dat0 to dat15, the byte lanes, the size, the
      two flags, the opcode and the parameter. */
  ghost predicate Holds(items: seq<Item>, cmd: Command) {
    && |items| == 23 && |cmd.dat| == 16 && items[0] == OfAddress(cmd.adr)
    && (forall i | 0 < i <= 16 :: items[i] == OfWord(cmd.dat[i - 1]))
    && items[17] == OfMask(cmd.sel) && items[18] == OfCode(cmd.size)
    && items[19] == OfFlag(cmd.isWrite) && items[20] == OfFlag(cmd.isAtomic)
    && items[21] == OfCode(cmd.opcode) && items[22] == OfCode(cmd.param)
  }

  lemma EncodedHolds(cmd: Command)
    requires |cmd.dat| == 16
    ensures Holds(Encoded(cmd), cmd)
  {
    var items := Encoded(cmd);
    forall i | 0 < i <= 16 ensures items[i] == OfWord(cmd.dat[i - 1]) {
      assert items[i] == WordItems(cmd.dat)[i - 1];
    }
  }

  /** What is pushed in order is popped in order: every command survives the message. */
  lemma MessageRoundTrip(cmd: Command)
    requires |cmd.dat| == FIELDS
    ensures IsCommand(Encoded(cmd)) && Decoded(Encoded(cmd)) == cmd
  {
    var items := Encoded(cmd);
    forall i | 0 <= i < FIELDS ensures items[i + 1] == OfWord(cmd.dat[i]) {}
    assert Decoded(items).dat == cmd.dat;
  }

  method Encode(cmd: Command) returns (msg: Message)
    ensures fresh(msg) && msg.items == Encoded(cmd)
    ensures |cmd.dat| == 16 ==> Holds(msg.items, cmd)
  {
    if |cmd.dat| == 16 {
      EncodedHolds(cmd);
    }
    hide Holds;
    msg := new Message();
    msg.Push(OfAddress(cmd.adr));
    for i := 0 to |cmd.dat|
      invariant fresh(msg) && msg.items == [OfAddress(cmd.adr)] + WordItems(cmd.dat[..i])
    {
      msg.Push(OfWord(cmd.dat[i]));
      assert WordItems(cmd.dat[..i + 1]) == WordItems(cmd.dat[..i]) + [OfWord(cmd.dat[i])];
    }
    assert cmd.dat[..|cmd.dat|] == cmd.dat;
    msg.Push(OfMask(cmd.sel));
    msg.Push(OfCode(cmd.size));
    msg.Push(OfFlag(cmd.isWrite));
    msg.Push(OfFlag(cmd.isAtomic));
    msg.Push(OfCode(cmd.opcode));
    msg.Push(OfCode(cmd.param));
  }

  method Decode(msg: Message) returns (cmd: Command)
    requires IsCommand(msg.items)
    modifies msg
    ensures cmd == Decoded(old(msg.items)) && Holds(old(msg.items), cmd) && msg.items == []
  {
    ghost var items := msg.items;
    var adr := msg.Pop();
    var dat: seq<Word> := [];
    for i := 0 to FIELDS
      invariant msg.items == items[i + 1..]
      invariant |dat| == i && forall k :: 0 <= k < i ==> dat[k] == items[k + 1].word
    {
      var item := msg.Pop();
      dat := dat + [item.word];
    }
    assert dat == Decoded(items).dat;
    var sel := msg.Pop();
    var size := msg.Pop();
    var isWrite := msg.Pop();
    var isAtomic := msg.Pop();
    var opcode := msg.Pop();
    var param := msg.Pop();
    cmd := Command(adr.address, dat, sel.mask, size.code, isWrite.flag, isAtomic.flag, opcode.code, param.code);
  }

  // ---------------------------------------------------------------- 64-byte bursts

  /** d(32 * k + 31 downto 32 * k). */
  function Slice(d: seq<bool>, k: nat): (w: Word)
    requires 32 * (k + 1) <= |d|
    ensures |w| == 32
  {
    d[32 * k..32 * (k + 1)]
  }

  function WriteCommand(address: Address, d: seq<bool>, sel: Mask): Command
    requires |d| == 512
  {
    Command(address, seq(FIELDS, k requires 0 <= k < FIELDS => Slice(d, k)), sel, 6, true, false, 0, 0)
  }

  /** The data fields of a read request are never assigned; junk is what they hold. */
  function ReadCommand(address: Address, sel: Mask, junk: seq<Word>): Command {
    Command(address, junk, sel, 6, false, false, 0, 0)
  }

  function Joined(words: seq<Word>): seq<bool> {
    if words == [] then [] else Joined(words[..|words| - 1]) + words[|words| - 1]
  }

  /** Field by field, bit by bit. */
  lemma {:induction false} JoinedAt(words: seq<Word>, i: nat)
    requires (forall k | 0 <= k < |words| :: |words[k]| == 32) && i < 32 * |words|
    ensures |Joined(words)| == 32 * |words| && Joined(words)[i] == words[i / 32][i % 32]
  {
    var n := |words| - 1;
    var before := words[..n];
    if n > 0 {
      JoinedAt(before, if i < 32 * n then i else 0);
    }
    assert |Joined(before)| == 32 * n;
    if i >= 32 * n {
      assert i / 32 == n && i % 32 == i - 32 * n;
    }
  }

  lemma {:induction false} SlicesJoined(d: seq<bool>, words: seq<Word>)
    requires |d| == 32 * |words| && forall k :: 0 <= k < |words| ==> words[k] == Slice(d, k)
    ensures Joined(words) == d
  {
    if words != [] {
      var n := |words| - 1;
      assert d == d[..32 * n] + Slice(d, n);
      forall k | 0 <= k < n ensures words[k] == Slice(d[..32 * n], k) {
        assert words[k] == Slice(d, k);
      }
      SlicesJoined(d[..32 * n], words[..n]);
    }
  }

  /** The message asks for 64 bytes at the address, as a write or not, and is not atomic. */
  ghost predicate AsksFor64Bytes(items: seq<Item>, address: Address, sel: Mask, isWrite: bool) {
    && IsCommand(items) && items[0] == OfAddress(address) && items[17] == OfMask(sel) && items[18] == OfCode(6)
    && items[19] == OfFlag(isWrite) && items[20] == OfFlag(false) && items[21] == OfCode(0) && items[22] == OfCode(0)
  }

  /** Data field k holds bits 32 * k to 32 * k + 31 of d. */
  ghost predicate FieldsAre(items: seq<Item>, d: seq<bool>)
    requires IsCommand(items)
  {
    && |d| == 512 && (forall k | 1 <= k <= 16 :: |items[k].word| == 32)
    && forall i | 0 <= i < 512 :: items[i / 32 + 1].word[i % 32] == d[i]
  }

  /** bus_write_burst_64B up to the send. */
  method WriteBurst64B(address: Address, d: seq<bool>, sel: Mask) returns (msg: Message)
    requires |d| == 512
    ensures fresh(msg) && IsCommand(msg.items) && Decoded(msg.items) == WriteCommand(address, d, sel)
    ensures AsksFor64Bytes(msg.items, address, sel, true) && FieldsAre(msg.items, d)
  {
    var dat: seq<Word> := [];
    for k := 0 to FIELDS
      invariant |dat| == k && forall j :: 0 <= j < k ==> dat[j] == Slice(d, j)
    {
      dat := dat + [d[32 * k..32 * (k + 1)]];
    }
    var payload := Command(address, dat, sel, 6, true, false, 0, 0);
    assert payload.dat == WriteCommand(address, d, sel).dat;
    MessageRoundTrip(payload);
    msg := Encode(payload);
    SlicesAre(msg.items, payload, d);
  }

  lemma SlicesAre(items: seq<Item>, cmd: Command, d: seq<bool>)
    requires |d| == 512 && IsCommand(items) && Holds(items, cmd)
    requires forall k | 0 <= k < 16 :: cmd.dat[k] == Slice(d, k)
    ensures FieldsAre(items, d)
  {
    forall k | 1 <= k <= 16 ensures items[k].word == Slice(d, k - 1) {
    }
    forall i | 0 <= i < 512 ensures items[i / 32 + 1].word[i % 32] == d[i] {
      assert i == 32 * (i / 32) + i % 32;
    }
  }

  /** bus_read_burst_64B up to the send; the data fields are whatever the unassigned record holds. */
  method ReadBurst64B(address: Address, sel: Mask, junk: seq<Word>) returns (msg: Message)
    requires |junk| == FIELDS
    ensures fresh(msg) && IsCommand(msg.items) && Decoded(msg.items) == ReadCommand(address, sel, junk)
    ensures AsksFor64Bytes(msg.items, address, sel, false)
  {
    var payload := Command(address, junk, sel, 6, false, false, 0, 0);
    MessageRoundTrip(payload);
    msg := Encode(payload);
  }

  /** The end of bus_read_burst_64B: the value is taken from the reply field by field. */
  method ReadValue(reply: Message) returns (val: seq<bool>)
    requires IsCommand(reply.items)
    modifies reply
    ensures val == Joined(Decoded(old(reply.items)).dat)
    ensures (forall k | 1 <= k <= 16 :: |old(reply.items)[k].word| == 32) ==> FieldsAre(old(reply.items), val)
  {
    var payload := Decode(reply);
    val := [];
    for k := 0 to FIELDS
      invariant val == Joined(payload.dat[..k])
    {
      val := val + payload.dat[k];
      assert payload.dat[..k + 1][..k] == payload.dat[..k];
    }
    assert payload.dat[..FIELDS] == payload.dat;
    if forall k | 1 <= k <= 16 :: |old(reply.items)[k].word| == 32 {
      JoinedAre(old(reply.items), payload);
    }
  }

  lemma JoinedAre(items: seq<Item>, cmd: Command)
    requires IsCommand(items) && Holds(items, cmd) && forall k | 1 <= k <= 16 :: |items[k].word| == 32
    ensures FieldsAre(items, Joined(cmd.dat))
  {
    hide Joined;
    forall k | 0 <= k < 16 ensures |cmd.dat[k]| == 32 {
      assert items[k + 1] == OfWord(cmd.dat[k]);
    }
    JoinedAt(cmd.dat, 0);
    forall i | 0 <= i < 512 ensures items[i / 32 + 1].word[i % 32] == Joined(cmd.dat)[i] {
      JoinedAt(cmd.dat, i);
    }
  }

  // ---------------------------------------------------------------- write, then read

  function BeatIndex(cmd: Command, k: nat): nat {
    WordIndex(Plus(cmd.adr, 4 * k))
  }

  /** The beats of a burst go to words of their own. */
  lemma BeatsApart(cmd: Command, i: nat, j: nat)
    requires i < j < 0x4000_0000
    ensures BeatIndex(cmd, i) != BeatIndex(cmd, j)
  {
  }

  lemma WrittenStep(words: Words, cmd: Command, k: nat, i: nat)
    requires cmd.dat != [] && 0 < k
    ensures Peek(Written(words, cmd, k), i)
            == if i == BeatIndex(cmd, k - 1)
               then Merge(Peek(Written(words, cmd, k - 1), i), PutBeat(cmd, k - 1).data, cmd.sel)
               else Peek(Written(words, cmd, k - 1), i)
  {
    hide Plus, Merge, Peek, Poke;
    PokePeek(Written(words, cmd, k - 1), PutBeat(cmd, k - 1), i);
  }

  /** A word stays what it was until its beat is written. */
  lemma {:induction false} NotYetWritten(words: Words, cmd: Command, k: nat, j: nat)
    requires cmd.dat != [] && k <= j < 0x4000_0000
    ensures Peek(Written(words, cmd, k), BeatIndex(cmd, j)) == Peek(words, BeatIndex(cmd, j))
  {
    if k > 0 {
      WrittenStep(words, cmd, k, BeatIndex(cmd, j));
      BeatsApart(cmd, k - 1, j);
      hide *;
      NotYetWritten(words, cmd, k - 1, j);
    }
  }

  /** From its beat on it is what that beat made of it. */
  lemma {:induction false} WrittenAt(words: Words, cmd: Command, k: nat, j: nat)
    requires cmd.dat != [] && j < k < 0x4000_0000
    ensures Peek(Written(words, cmd, k), BeatIndex(cmd, j))
            == Merge(Peek(words, BeatIndex(cmd, j)), PutBeat(cmd, j).data, cmd.sel)
  {
    WrittenStep(words, cmd, k, BeatIndex(cmd, j));
    if j < k - 1 {
      BeatsApart(cmd, j, k - 1);
      hide *;
      WrittenAt(words, cmd, k - 1, j);
    } else {
      hide *;
      NotYetWritten(words, cmd, j, j);
    }
  }

  lemma MergeAll(was: Word, data: Word)
    requires |data| == 32
    ensures Merge(was, data, ALL_LANES) == data
  {
    forall i | 0 <= i < 32 ensures Merge(was, data, ALL_LANES)[i] == data[i] {
      assert 0 <= i / 8 < 4;
    }
  }

  /** What the sequential memory gives for the read after the write. */
  lemma ReadAfterWrite(alu: Alu, words: Words, address: Address, d: seq<bool>, sel: Mask, readSel: Mask,
    junk: seq<Word>)
    requires |d| == 512 && |junk| == FIELDS
    ensures var reply := ReplyFrom(WordsAfter(alu, words, WriteCommand(address, d, sel)),
            ReadCommand(address, readSel, junk));
            && |reply.dat| == FIELDS
            && (forall k :: 0 <= k < FIELDS ==>
                  reply.dat[k] == Merge(Peek(words, WordIndex(Plus(address, 4 * k))), Slice(d, k), sel))
            && (sel == ALL_LANES ==> Joined(reply.dat) == d)
  {
    var write, read := WriteCommand(address, d, sel), ReadCommand(address, readSel, junk);
    var reply := ReplyFrom(WordsAfter(alu, words, write), read);
    assert TotalBeats(6) == 16 by {
      assert Pow2(4) == 16;
    }
    hide Merge, Joined, Plus, WordIndex, Peek, TotalBeats, Written;
    forall k | 0 <= k < FIELDS
      ensures reply.dat[k] == Merge(Peek(words, WordIndex(Plus(address, 4 * k))), Slice(d, k), sel)
      ensures sel == ALL_LANES ==> reply.dat[k] == Slice(d, k)
    {
      WrittenAt(words, write, 16, k);
      MergeAll(Peek(words, WordIndex(Plus(address, 4 * k))), Slice(d, k));
    }
    if sel == ALL_LANES {
      SlicesJoined(d, reply.dat);
    }
  }

  /** A 64-byte burst write and then a 64-byte burst read of the same address, through messages,
      master and a memory that stalls in any way, with any idle time between them: each word read
      is the word written in the selected byte lanes and what was there before in the others, so
      with all lanes selected the same 512 bits come back. */
  lemma BurstRoundTrip(alu: Alu, words: Words, address: Address, d: seq<bool>, sel: Mask, readSel: Mask,
    junk: seq<Word>,
                       write: Command, read: Command, idle0: nat, idle1: nat, p: seq<PerPort>)
    requires |d| == 512 && |junk| == FIELDS
    requires IsCommand(Encoded(WriteCommand(address, d, sel)))
             && write == Decoded(Encoded(WriteCommand(address, d, sel)))
    requires IsCommand(Encoded(ReadCommand(address, readSel, junk)))
             && read == Decoded(Encoded(ReadCommand(address, readSel, junk)))
    requires |SessionReplies([Request(idle0, write), Request(idle1, read)], p)| == 2
    requires Obeys(Memory(alu, words, [], 0), SessionWave([Request(idle0, write), Request(idle1, read)], p), p)
    ensures var reply := Encoded(SessionReplies([Request(idle0, write), Request(idle1, read)], p)[1]);
            && IsCommand(reply)
            && (forall k :: 0 <= k < FIELDS ==>
                  Decoded(reply).dat[k] == Merge(Peek(words, WordIndex(Plus(address, 4 * k))), Slice(d, k), sel))
            && (sel == ALL_LANES ==> Joined(Decoded(reply).dat) == d)
  {
    MessageRoundTrip(WriteCommand(address, d, sel));
    MessageRoundTrip(ReadCommand(address, readSel, junk));
    var requests := [Request(idle0, write), Request(idle1, read)];
    SessionRefines(alu, words, requests, p);
    ReadAfterWrite(alu, words, address, d, sel, readSel, junk);
    hide SessionWave, SessionReplies, Obeys, Merge, Joined, Slice, Plus, WordIndex, Peek, Encoded, Decoded;
    hide WordsAfter, ReplyFrom, IsCommand, WriteCommand, ReadCommand;
    assert requests[..2] == requests && requests[1..] == [Request(idle1, read)];
    assert AllReplies(alu, words, requests)[1] == ReplyFrom(WordsAfter(alu, words, write), read);
    MessageRoundTrip(SessionReplies(requests, p)[1]);
  }
}
