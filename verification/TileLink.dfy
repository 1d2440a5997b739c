/** The TileLink records the test benches share: channel A as a host drives it, what a peripheral
    shows at a rising edge, and the words and byte masks they carry. */
module TileLink {
  import opened Common

  /** std_ulogic_vector, bit 0 first: 32 bits of data, 4 byte lanes. */
  type Word = seq<bool>
  type Mask = seq<bool>
  type Address = x: nat | x < 0x1_0000_0000
  type Code = x: nat | x < 8

  function Zeros(n: nat): (w: seq<bool>)
    ensures |w| == n
  {
    seq(n, _ => false)
  }

  const ZERO_WORD: Word := Zeros(32)
  const ALL_LANES: Mask := [true, true, true, true]
  const NO_LANES: Mask := [false, false, false, false]

  const OP_PUT_FULL_DATA: Code := 0
  const OP_PUT_PARTIAL_DATA: Code := 1
  const OP_GET: Code := 4

  datatype ChannelA = ChannelA(valid: bool, opcode: Code, param: Code, size: Code,
                               address: Address, mask: Mask, data: Word)

  datatype HostPort = HostPort(a: ChannelA, dReady: bool)

  const HOST_NEW := HostPort(ChannelA(false, 0, 0, 0, 0, NO_LANES, ZERO_WORD), false)

  /** What the host sees of a peripheral just before a rising edge. */
  datatype PerPort = PerPort(aReady: bool, dValid: bool, dData: Word)

  function Plus(a: Address, offset: nat): Address {
    (a + offset) % 0x1_0000_0000
  }

  lemma PlusPlus(a: Address, m: nat, n: nat)
    ensures Plus(Plus(a, m), n) == Plus(a, m + n)
  {
  }

  predicate Bit(w: seq<bool>, i: nat) {
    i < |w| && w[i]
  }

  /** Byte lanes selected by the mask come from data, the others from the word as it was. */
  function Merge(was: Word, data: Word, mask: Mask): (word: Word)
    ensures |word| == 32
  {
    seq(32, i requires 0 <= i => Bit(if Bit(mask, i / 8) then data else was, i))
  }

  /** Requests transferred on channel A: valid and ready at the same rising edge. */
  function Accepted(w: seq<HostPort>, p: seq<PerPort>): seq<ChannelA>
    requires |w| == |p|
  {
    if p == [] then []
    else
      var n := |p| - 1;
      Accepted(w[..n], p[..n]) + if w[n].a.valid && p[n].aReady then [w[n].a] else []
  }

  /** Data transferred on channel D: valid and ready at the same rising edge. */
  function Taken(w: seq<HostPort>, p: seq<PerPort>): seq<Word>
    requires |w| == |p|
  {
    if p == [] then []
    else
      var n := |p| - 1;
      Taken(w[..n], p[..n]) + if w[n].dReady && p[n].dValid then [p[n].dData] else []
  }

  lemma HandshakesSnoc(w: seq<HostPort>, p: seq<PerPort>, host: HostPort, per: PerPort)
    requires |w| == |p|
    ensures Accepted(w + [host], p + [per]) == Accepted(w, p) + if host.a.valid && per.aReady then [host.a] else []
    ensures Taken(w + [host], p + [per]) == Taken(w, p) + if host.dReady && per.dValid then [per.dData] else []
  {
    assert (w + [host])[..|w|] == w && (p + [per])[..|p|] == p;
  }

  /** Handshakes over two stretches of time are those of the first, then those of the second. */
  lemma {:induction false} HandshakesConcat(w: seq<HostPort>, p: seq<PerPort>, w': seq<HostPort>, p': seq<PerPort>)
    requires |w| == |p| && |w'| == |p'|
    ensures Accepted(w + w', p + p') == Accepted(w, p) + Accepted(w', p')
    ensures Taken(w + w', p + p') == Taken(w, p) + Taken(w', p')
  {
    if p' == [] {
      assert w + w' == w && p + p' == p;
    } else {
      hide Accepted, Taken;
      var n := |p'| - 1;
      HandshakesConcat(w, p, w'[..n], p'[..n]);
      assert w' == w'[..n] + [w'[n]] && p' == p'[..n] + [p'[n]];
      ConcatSnoc(w, w'[..n], w'[n]);
      ConcatSnoc(p, p'[..n], p'[n]);
      HandshakesSnoc(w + w'[..n], p + p'[..n], w'[n], p'[n]);
      HandshakesSnoc(w'[..n], p'[..n], w'[n], p'[n]);
      var a := if w'[n].a.valid && p'[n].aReady then [w'[n].a] else [];
      var d := if w'[n].dReady && p'[n].dValid then [p'[n].dData] else [];
      ConcatAssoc(Accepted(w, p), Accepted(w'[..n], p'[..n]), a);
      ConcatAssoc(Taken(w, p), Taken(w'[..n], p'[..n]), d);
    }
  }

  lemma ConcatSnoc<T>(a: seq<T>, b: seq<T>, x: T)
    ensures a + b + [x] == a + (b + [x])
  {
  }

  function Readies(p: seq<PerPort>): nat {
    if p == [] then 0 else Readies(p[..|p| - 1]) + if p[|p| - 1].aReady then 1 else 0
  }

  function Responses(p: seq<PerPort>): seq<Word> {
    if p == [] then [] else Responses(p[..|p| - 1]) + if p[|p| - 1].dValid then [p[|p| - 1].dData] else []
  }
}
