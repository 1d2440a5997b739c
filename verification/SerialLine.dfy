/** The serial line codec of the test benches: a sender that drives a wire over time and a
    receiver that samples it with a bit period of its own. Time is an integer count of the
    simulator's time unit, as VHDL's `time` is. */
module SerialLine {
  import opened Common
  import opened Wrappers

  type Byte = x: nat | x < 256

  /** One assignment to the wire: from the delta cycle after `at` the wire carries `level`. */
  datatype Transaction = Transaction(at: int, level: bool)

  const LF: Byte := 10
  const SPACE: Byte := 32

  // ---------------------------------------------------------------- the wire

  /** What a process that wakes up at time t by `wait for` reads. An assignment made at the same
      instant takes effect one delta cycle later, so only earlier ones count. */
  function Level(before: bool, w: seq<Transaction>, t: int): bool
    decreases w
  {
    if w == [] || t <= w[0].at then before else Level(w[0].level, w[1..], t)
  }

  /** `wait until rx = '0'`, entered at time `now`: the instant of the next falling edge. */
  function NextFall(before: bool, w: seq<Transaction>, now: int): Option<int>
    decreases w
  {
    if w == [] then None
    else if now <= w[0].at && before && !w[0].level then Some(w[0].at)
    else NextFall(w[0].level, w[1..], now)
  }

  ghost predicate Before(w: seq<Transaction>, t: int) {
    forall i :: 0 <= i < |w| ==> w[i].at < t
  }

  ghost predicate NotBefore(w: seq<Transaction>, t: int) {
    forall i :: 0 <= i < |w| ==> t <= w[i].at
  }

  /** The level seen at t is the last one assigned before t, whatever is assigned later. */
  lemma {:induction false} LevelAt(before: bool, u: seq<Transaction>, v: seq<Transaction>, t: int)
    requires Before(u, t) && NotBefore(v, t)
    ensures Level(before, u + v, t) == if u == [] then before else u[|u| - 1].level
    decreases u
  {
    if u == [] {
      assert u + v == v;
    } else {
      assert (u + v)[1..] == u[1..] + v;
      LevelAt(u[0].level, u[1..], v, t);
    }
  }

  /** Assignments from which no falling edge at or after `now` can come are skipped over. */
  lemma {:induction false} SkipQuiet(before: bool, u: seq<Transaction>, v: seq<Transaction>, now: int)
    requires forall i :: 0 <= i < |u| && now <= u[i].at ==> u[i].level
    ensures NextFall(before, u + v, now) == NextFall(if u == [] then before else u[|u| - 1].level, v, now)
    decreases u
  {
    if u == [] {
      assert u + v == v;
    } else {
      assert (u + v)[1..] == u[1..] + v;
      SkipQuiet(u[0].level, u[1..], v, now);
    }
  }

  /** The level the last assignment before t leaves, counting on as long as they come before t. */
  ghost predicate Reads(before: bool, w: seq<Transaction>, t: int, level: bool) {
    exists m | 0 <= m <= |w| :: Last(w, t, m) && level == Entering(before, w, m)
  }

  /** Just the first m assignments come before t. */
  ghost predicate Last(w: seq<Transaction>, t: int, m: nat)
    requires m <= |w|
  {
    (forall i | 0 <= i < m :: w[i].at < t) && (m < |w| ==> t <= w[m].at)
  }

  /** The level before the m-th assignment. */
  function Entering(before: bool, w: seq<Transaction>, m: nat): bool
    requires m <= |w|
  {
    if m == 0 then before else w[m - 1].level
  }

  /** The m-th assignment takes the wire from high to low, no earlier than now. */
  ghost predicate FallsAt(before: bool, w: seq<Transaction>, now: int, m: nat)
    requires m < |w|
  {
    now <= w[m].at && Entering(before, w, m) && !w[m].level
  }

  ghost predicate FirstFall(before: bool, w: seq<Transaction>, now: int, at: int) {
    exists m | 0 <= m < |w| ::
      FallsAt(before, w, now, m) && at == w[m].at && forall l | 0 <= l < m :: !FallsAt(before, w, now, l)
  }

  lemma {:induction false} LevelReads(before: bool, w: seq<Transaction>, t: int)
    ensures Reads(before, w, t, Level(before, w, t))
    decreases w
  {
    if w == [] || t <= w[0].at {
      assert Last(w, t, 0);
    } else {
      LevelReads(w[0].level, w[1..], t);
      var m :| 0 <= m <= |w| - 1 && Last(w[1..], t, m)
               && Level(before, w, t) == Entering(w[0].level, w[1..], m);
      assert forall i | 0 < i <= m :: w[i] == w[1..][i - 1];
      assert Last(w, t, m + 1);
    }
  }

  lemma ReadsOnce(before: bool, w: seq<Transaction>, t: int, level: bool)
    ensures Reads(before, w, t, level) <==> level == Level(before, w, t)
  {
    LevelReads(before, w, t);
    if Reads(before, w, t, level) {
      hide Level;
      var m :| 0 <= m <= |w| && Last(w, t, m) && level == Entering(before, w, m);
      var n :| 0 <= n <= |w| && Last(w, t, n) && Level(before, w, t) == Entering(before, w, n);
      assert m == n;
    }
  }

  lemma {:induction false} NextFallIsFirst(before: bool, w: seq<Transaction>, now: int)
    ensures match NextFall(before, w, now)
            case Some(at) => FirstFall(before, w, now, at)
            case None => forall m | 0 <= m < |w| :: !FallsAt(before, w, now, m)
    decreases w
  {
    if w != [] {
      if FallsAt(before, w, now, 0) {
        return;
      }
      NextFallIsFirst(w[0].level, w[1..], now);
      forall m | 0 < m < |w| ensures FallsAt(before, w, now, m) == FallsAt(w[0].level, w[1..], now, m - 1) {
      }
      if NextFall(before, w, now).Some? {
        var at := NextFall(before, w, now).value;
        var m :| 0 <= m < |w| - 1 && FallsAt(w[0].level, w[1..], now, m) && at == w[1..][m].at
                 && forall l | 0 <= l < m :: !FallsAt(w[0].level, w[1..], now, l);
        assert FallsAt(before, w, now, m + 1) && at == w[m + 1].at;
      }
    }
  }

  lemma FirstFallOnce(before: bool, w: seq<Transaction>, now: int, at: int)
    requires FirstFall(before, w, now, at)
    ensures NextFall(before, w, now) == Some(at)
  {
    hide FallsAt, NextFall;
    NextFallIsFirst(before, w, now);
  }

  // ---------------------------------------------------------------- characters as bits

  /** The n low bits of c, least significant first. */
  function Bits(c: nat, n: nat): (bits: seq<bool>)
    ensures |bits| == n
  {
    if n == 0 then [] else [c % 2 == 1] + Bits(c / 2, n - 1)
  }

  function Value(bits: seq<bool>): nat {
    if bits == [] then 0 else (if bits[0] then 1 else 0) + 2 * Value(bits[1..])
  }

  /** Bit i has weight 2^i. */
  lemma {:induction false} BitsAt(c: nat, n: nat, i: nat)
    requires i < n
    ensures Bits(c, n)[i] == (c / Pow2(i) % 2 == 1)
  {
    if i > 0 {
      BitsAt(c / 2, n - 1, i - 1);
      QuotientTwice(c, 2, Pow2(i - 1));
    }
  }

  lemma {:induction false} BitsRoundTrip(c: nat, n: nat)
    requires c < Pow2(n)
    ensures Value(Bits(c, n)) == c
  {
    if n > 0 {
      BitsRoundTrip(c / 2, n - 1);
      assert Bits(c, n)[1..] == Bits(c / 2, n - 1);
    }
  }

  function CharBits(c: Byte): (bits: seq<bool>)
    ensures |bits| == 8
  {
    Bits(c, 8)
  }

  lemma {:induction false} ValueBound(bits: seq<bool>)
    ensures Value(bits) < Pow2(|bits|)
  {
    if bits != [] {
      ValueBound(bits[1..]);
    }
  }

  lemma Pow2Of8()
    ensures Pow2(8) == 256
  {
    assert Pow2(4) == 16;
    assert Pow2(6) == 64;
  }

  function CharValue(bits: seq<bool>): Byte
    requires |bits| == 8
  {
    ValueBound(bits);
    Pow2Of8();
    Value(bits)
  }

  lemma {:induction false} ValueRoundTrip(bits: seq<bool>)
    ensures Bits(Value(bits), |bits|) == bits
  {
    if bits != [] {
      ValueRoundTrip(bits[1..]);
      assert bits == [bits[0]] + bits[1..];
    }
  }

  lemma CharRoundTrip(c: Byte)
    ensures CharValue(CharBits(c)) == c
  {
    Pow2Of8();
    BitsRoundTrip(c, 8);
  }

  // ---------------------------------------------------------------- the sender

  /** The j-th level of a frame: idle, start, the message bits, stop, idle again. */
  function FrameLevel(message: seq<bool>, j: nat): bool {
    j != 1 && (2 <= j < |message| + 2 ==> message[j - 2])
  }

  function Frame(b: int, bitPeriod: nat, message: seq<bool>): (w: seq<Transaction>)
    ensures |w| == |message| + 4
  {
    seq(|message| + 4, j requires 0 <= j => Transaction(b + j * bitPeriod, FrameLevel(message, j)))
  }

  /** All that is assigned for a string whose sending starts at b: a frame every 13 periods. */
  function Transmission(b: int, bitPeriod: nat, s: seq<Byte>): seq<Transaction>
    decreases s
  {
    if s == [] then []
    else Frame(b, bitPeriod, CharBits(s[0])) + Transmission(b + 13 * bitPeriod, bitPeriod, s[1..])
  }

  /** Assignment j of the 12 for character c, whose sending starts at b: idle, start bit, the eight
      bits of c from the lowest to the highest, stop bit, idle. */
  ghost predicate SentAt(t: Transaction, b: int, bitPeriod: nat, c: Byte, j: nat) {
    t.at == b + j * bitPeriod && t.level == (j == 0 || j >= 10 || (j >= 2 && c / Pow2(j - 2) % 2 == 1))
  }

  /** The text is on the wire: 12 assignments for each character, every character 13 periods
      after the one before. */
  ghost predicate Sent(w: seq<Transaction>, b: int, bitPeriod: nat, s: seq<Byte>) {
    && |w| == 12 * |s|
    && forall i | 0 <= i < |w| :: SentAt(w[i], b + 13 * bitPeriod * (i / 12), bitPeriod, s[i / 12], i % 12)
  }

  lemma FrameSent(b: int, bitPeriod: nat, c: Byte, j: nat)
    requires j < 12
    ensures SentAt(Frame(b, bitPeriod, CharBits(c))[j], b, bitPeriod, c, j)
  {
    if 2 <= j < 10 {
      BitsAt(c, 8, j - 2);
    }
  }

  lemma {:induction false} TransmissionSent(b: int, bitPeriod: nat, s: seq<Byte>)
    ensures Sent(Transmission(b, bitPeriod, s), b, bitPeriod, s)
    decreases s
  {
    if s == [] {
      return;
    }
    hide *;
    var next, more := b + 13 * bitPeriod, s[1..];
    var first, rest := Frame(b, bitPeriod, CharBits(s[0])), Transmission(next, bitPeriod, more);
    TransmissionFront(b, bitPeriod, s);
    TransmissionSent(next, bitPeriod, more);
    forall j: nat | j < 12 ensures SentAt(first[j], b, bitPeriod, s[0], j) {
      FrameSent(b, bitPeriod, s[0], j);
    }
    SentConcat(first, rest, b, bitPeriod, s);
  }

  lemma SentConcat(first: seq<Transaction>, rest: seq<Transaction>, b: int, bitPeriod: nat, s: seq<Byte>)
    requires s != [] && |first| == 12 && Sent(rest, b + 13 * bitPeriod, bitPeriod, s[1..])
    requires forall j: nat | j < 12 :: SentAt(first[j], b, bitPeriod, s[0], j)
    ensures Sent(first + rest, b, bitPeriod, s)
  {
    hide SentAt;
    var w := first + rest;
    forall i | 0 <= i < |w| ensures SentAt(w[i], b + 13 * bitPeriod * (i / 12), bitPeriod, s[i / 12], i % 12) {
      if i < 12 {
        assert i / 12 == 0 && i % 12 == i;
      } else {
        var l := i - 12;
        assert i / 12 == l / 12 + 1 && i % 12 == l % 12;
        OnePeriodMore(b, bitPeriod, l / 12);
        assert SentAt(rest[l], b + 13 * bitPeriod + 13 * bitPeriod * (l / 12), bitPeriod, s[1..][l / 12], l % 12);
      }
    }
  }

  lemma {:induction false} TransmissionAppend(b: int, bitPeriod: nat, s: seq<Byte>, c: Byte)
    ensures Transmission(b, bitPeriod, s + [c])
            == Transmission(b, bitPeriod, s) + Frame(b + 13 * bitPeriod * |s|, bitPeriod, CharBits(c))
    decreases s
  {
    hide *;
    if s == [] {
      assert s + [c] == [c];
      TransmissionOne(b, bitPeriod, c);
      return;
    }
    var next, more := b + 13 * bitPeriod, s[1..];
    var first := Frame(b, bitPeriod, CharBits(s[0]));
    TransmissionFront(b, bitPeriod, s);
    TransmissionFront(b, bitPeriod, s + [c]);
    assert (s + [c])[1..] == more + [c];
    TransmissionAppend(next, bitPeriod, more, c);
    OnePeriodMore(b, bitPeriod, |more|);
    assert |s| == |more| + 1;
    ConcatAssoc(first, Transmission(next, bitPeriod, more),
      Frame(next + 13 * bitPeriod * |more|, bitPeriod, CharBits(c)));
  }

  lemma TransmissionFront(b: int, bitPeriod: nat, s: seq<Byte>)
    requires s != []
    ensures Transmission(b, bitPeriod, s)
            == Frame(b, bitPeriod, CharBits(s[0])) + Transmission(b + 13 * bitPeriod, bitPeriod, s[1..])
  {
  }

  lemma TransmissionOne(b: int, bitPeriod: nat, c: Byte)
    ensures Transmission(b, bitPeriod, [c]) == Transmission(b, bitPeriod, [])
            + Frame(b + 13 * bitPeriod * 0, bitPeriod, CharBits(c))
  {
    hide Frame, CharBits;
    assert [c][1..] == [];
  }

  lemma OnePeriodMore(b: int, bitPeriod: nat, n: nat)
    ensures b + 13 * bitPeriod + 13 * bitPeriod * n == b + 13 * bitPeriod * (n + 1)
  {
  }

  /** The process that drives tx: its own clock and everything it has assigned so far. */
  class Sender {
    var now: int
    var tx: seq<Transaction>

    method Assign(level: bool)
      modifies this`tx
      ensures tx == old(tx) + [Transaction(now, level)]
    {
      tx := tx + [Transaction(now, level)];
    }

    method WaitFor(duration: nat)
      modifies this`now
      ensures now == old(now) + duration
    {
      now := now + duration;
    }

    method SendBits(bitPeriod: nat, message: seq<bool>)
      modifies this
      ensures tx == old(tx) + Frame(old(now), bitPeriod, message)
      ensures now == old(now) + (|message| + 3) * bitPeriod
    {
      Assign(true);
      WaitFor(bitPeriod);
      var uartAll := [false] + message + [true];
      ghost var frame := Frame(old(now), bitPeriod, message);
      assert tx == old(tx) + frame[..1];
      for i := 0 to |uartAll|
        invariant now == old(now) + (i + 1) * bitPeriod
        invariant tx == old(tx) + frame[..i + 1]
      {
        Assign(uartAll[i]);
        assert frame[..i + 2] == frame[..i + 1] + [frame[i + 1]];
        WaitFor(bitPeriod);
      }
      Assign(true);
      assert frame == frame[..|uartAll| + 1] + [frame[|uartAll| + 1]];
    }

    method SendString(bitPeriod: nat, message: seq<Byte>)
      modifies this
      ensures tx == old(tx) + Transmission(old(now), bitPeriod, message)
      ensures old(tx) <= tx && Sent(tx[|old(tx)|..], old(now), bitPeriod, message)
      ensures now == old(now) + 13 * bitPeriod * |message|
    {
      for i := 0 to |message|
        invariant now == old(now) + 13 * bitPeriod * i
        invariant tx == old(tx) + Transmission(old(now), bitPeriod, message[..i])
      {
        TransmissionAppend(old(now), bitPeriod, message[..i], message[i]);
        assert message[..i + 1] == message[..i] + [message[i]];
        SendBits(bitPeriod, CharBits(message[i]));
        WaitFor(2 * bitPeriod);
        assert 13 * bitPeriod * (i + 1) == 13 * bitPeriod * i + 11 * bitPeriod + 2 * bitPeriod;
      }
      assert message[..|message|] == message;
      TransmissionSent(old(now), bitPeriod, message);
      assert tx[|old(tx)|..] == Transmission(old(now), bitPeriod, message);
    }
  }

  // ---------------------------------------------------------------- the receiver

  /** What one rcv_bits yields: the message, whether the stop bit was there, and the time after. */
  datatype Reception = Reception(bits: seq<bool>, stopSeen: bool, now: int)

  /** The instant from which whole periods are counted, if the receiver gets that far. A half
      period of zero is a wait for one delta cycle, in which the wire is still low. */
  function Origin(before: bool, rx: seq<Transaction>, bitPeriod: nat, now: int): Option<int> {
    match NextFall(before, rx, now)
    case None => None
    case Some(start) =>
      var middle := start + bitPeriod / 2;
      if middle != start && Level(before, rx, middle) then NextFall(before, rx, middle) else Some(middle)
  }

  function Samples(before: bool, rx: seq<Transaction>, bitPeriod: nat, origin: int, n: nat): (bits: seq<bool>)
    ensures |bits| == n
  {
    seq(n, i requires 0 <= i => Level(before, rx, origin + (i + 1) * bitPeriod))
  }

  lemma SamplesSnoc(before: bool, rx: seq<Transaction>, bitPeriod: nat, origin: int, n: nat)
    ensures origin + (n + 1) * bitPeriod == origin + n * bitPeriod + bitPeriod
    ensures Samples(before, rx, bitPeriod, origin, n + 1)
            == Samples(before, rx, bitPeriod, origin, n) + [Level(before, rx, origin + (n + 1) * bitPeriod)]
  {
  }

  function Received(before: bool, rx: seq<Transaction>, bitPeriod: nat, now: int, n: nat): Option<Reception> {
    match Origin(before, rx, bitPeriod, now)
    case None => None
    case Some(origin) =>
      var stop := origin + (n + 1) * bitPeriod;
      Some(Reception(Samples(before, rx, bitPeriod, origin, n), Level(before, rx, stop), stop))
  }

  /** rcv_bits; None when the wire has no further falling edge and the receiver waits for ever. */
  method RcvBits(before: bool, rx: seq<Transaction>, bitPeriod: nat, start: int, n: nat)
    returns (r: Option<Reception>)
    ensures r == Received(before, rx, bitPeriod, start, n)
    ensures match r
            case Some(reception) => Receives(before, rx, bitPeriod, start, n, reception)
            case None => forall reception :: !Receives(before, rx, bitPeriod, start, n, reception)
  {
    hide Receives, NextFall, Level, Samples;
    ReceivedExplained(before, rx, bitPeriod, start, n);
    var edge := NextFall(before, rx, start);
    if edge == None {
      return None;
    }
    var now := edge.value + bitPeriod / 2;
    if now != edge.value && Level(before, rx, now) {
      edge := NextFall(before, rx, now);
      if edge == None {
        return None;
      }
      now := edge.value;
    }
    ghost var origin := now;
    var message: seq<bool> := [];
    assert Samples(before, rx, bitPeriod, origin, 0) == [];
    for i := 0 to n
      invariant now == origin + i * bitPeriod
      invariant message == Samples(before, rx, bitPeriod, origin, i)
    {
      SamplesSnoc(before, rx, bitPeriod, origin, i);
      now := now + bitPeriod;
      message := message + [Level(before, rx, now)];
    }
    now := now + bitPeriod;
    return Some(Reception(message, Level(before, rx, now), now));
  }

  /** The reception r as the wire gives it to a receiver that starts waiting at start: from the
      first falling edge on, half a period later if the wire is still low there (or when there is
      no such instant) and otherwise from the next falling edge, a bit is read after each of n
      whole periods and the stop bit after one more. */
  ghost predicate Receives(before: bool, rx: seq<Transaction>, bitPeriod: nat, start: int, n: nat, r: Reception) {
    exists edge: int, origin: int ::
      && FirstFall(before, rx, start, edge) && Begins(before, rx, bitPeriod, edge, origin)
      && SampledFrom(before, rx, bitPeriod, origin, n, r)
  }

  ghost predicate Begins(before: bool, rx: seq<Transaction>, bitPeriod: nat, edge: int, origin: int) {
    var middle := edge + bitPeriod / 2;
    if bitPeriod >= 2 && Reads(before, rx, middle, true) then FirstFall(before, rx, middle, origin)
    else origin == middle
  }

  ghost predicate SampledFrom(before: bool, rx: seq<Transaction>, bitPeriod: nat, origin: int, n: nat, r: Reception) {
    && |r.bits| == n && (forall i | 0 <= i < n :: Reads(before, rx, origin + (i + 1) * bitPeriod, r.bits[i]))
    && r.now == origin + (n + 1) * bitPeriod && Reads(before, rx, r.now, r.stopSeen)
  }

  lemma OriginBegins(before: bool, rx: seq<Transaction>, bitPeriod: nat, now: int, edge: int, origin: int)
    requires NextFall(before, rx, now) == Some(edge)
    ensures Begins(before, rx, bitPeriod, edge, origin) <==> Origin(before, rx, bitPeriod, now) == Some(origin)
  {
    hide FirstFall, Reads, Level, NextFall;
    var middle := edge + bitPeriod / 2;
    ReadsOnce(before, rx, middle, true);
    NextFallIsFirst(before, rx, middle);
    if FirstFall(before, rx, middle, origin) {
      FirstFallOnce(before, rx, middle, origin);
    }
  }

  lemma SampledOnce(before: bool, rx: seq<Transaction>, bitPeriod: nat, origin: int, n: nat, r: Reception)
    ensures var stop := origin + (n + 1) * bitPeriod;
            SampledFrom(before, rx, bitPeriod, origin, n, r)
            <==> r == Reception(Samples(before, rx, bitPeriod, origin, n), Level(before, rx, stop), stop)
  {
    hide Reads, Level;
    var stop, samples := origin + (n + 1) * bitPeriod, Samples(before, rx, bitPeriod, origin, n);
    ReadsOnce(before, rx, stop, r.stopSeen);
    forall i | 0 <= i < n ensures Reads(before, rx, origin + (i + 1) * bitPeriod, samples[i]) {
      ReadsOnce(before, rx, origin + (i + 1) * bitPeriod, samples[i]);
    }
    if SampledFrom(before, rx, bitPeriod, origin, n, r) {
      forall i | 0 <= i < n ensures r.bits[i] == samples[i] {
        ReadsOnce(before, rx, origin + (i + 1) * bitPeriod, r.bits[i]);
      }
      assert r.bits == samples;
    }
  }

  /** What is received is what the wire gives, and there is nothing else it could be. */
  lemma ReceivesIff(before: bool, rx: seq<Transaction>, bitPeriod: nat, now: int, n: nat, r: Reception)
    ensures Receives(before, rx, bitPeriod, now, n, r) <==> Received(before, rx, bitPeriod, now, n) == Some(r)
    ensures Receives(before, rx, bitPeriod, now, n, r) ==> |r.bits| == n
  {
    hide FirstFall, NextFall, Begins, SampledFrom, Samples, Level;
    NextFallIsFirst(before, rx, now);
    if Received(before, rx, bitPeriod, now, n) == Some(r) {
      var edge, origin := NextFall(before, rx, now).value, Origin(before, rx, bitPeriod, now).value;
      OriginBegins(before, rx, bitPeriod, now, edge, origin);
      SampledOnce(before, rx, bitPeriod, origin, n, r);
    }
    if Receives(before, rx, bitPeriod, now, n, r) {
      var edge: int, origin: int :|
        && FirstFall(before, rx, now, edge) && Begins(before, rx, bitPeriod, edge, origin)
        && SampledFrom(before, rx, bitPeriod, origin, n, r);
      FirstFallOnce(before, rx, now, edge);
      OriginBegins(before, rx, bitPeriod, now, edge, origin);
      SampledOnce(before, rx, bitPeriod, origin, n, r);
    }
  }

  lemma ReceivedExplained(before: bool, rx: seq<Transaction>, bitPeriod: nat, now: int, n: nat)
    ensures match Received(before, rx, bitPeriod, now, n)
            case Some(r) => Receives(before, rx, bitPeriod, now, n, r)
            case None => forall r :: !Receives(before, rx, bitPeriod, now, n, r)
  {
    hide Receives, Received;
    forall r {
      ReceivesIff(before, rx, bitPeriod, now, n, r);
    }
  }

  /** How rcv_string can end: with the string padded to the caller's range and the number of
      missing stop bits it reported, out of room, or still waiting for a start bit. */
  datatype Outcome = Done(message: seq<Byte>, stopErrors: nat) | OutOfRange | Waiting

  function Spaces(n: nat): (s: seq<Byte>)
    ensures |s| == n
  {
    seq(n, _ => SPACE)
  }

  function ReceivedString(before: bool, rx: seq<Transaction>, bitPeriod: nat, now: int,
                          range: nat, got: seq<Byte>, stopErrors: nat): Outcome
    requires |got| <= range
    decreases range - |got|
  {
    match Received(before, rx, bitPeriod, now, 8)
    case None => Waiting
    case Some(r) =>
      if |got| == range then OutOfRange
      else
        var cc := CharValue(r.bits);
        var errors := if r.stopSeen then stopErrors else stopErrors + 1;
        if cc == LF then Done(got + [cc] + Spaces(range - |got| - 1), errors)
        else ReceivedString(before, rx, bitPeriod, r.now, range, got + [cc], errors)
  }

  /** When the receiver is back waiting. */
  function BackAt(start: int, rs: seq<Reception>): int {
    if rs == [] then start else rs[|rs| - 1].now
  }

  /** One character after the other, each received from where the one before ended. */
  ghost predicate InTurn(before: bool, rx: seq<Transaction>, bitPeriod: nat, start: int, rs: seq<Reception>) {
    forall i | 0 <= i < |rs| :: Receives(before, rx, bitPeriod, BackAt(start, rs[..i]), 8, rs[i])
  }

  /** The character whose bit of weight 2^i is bits[i]. */
  ghost predicate Spells(bits: seq<bool>, c: nat) {
    && |bits| == 8 && c < 256
    && forall i: nat | i < 8 :: bits[i] == (c / Pow2(i) % 2 == 1)
  }

  ghost predicate NoLineFeed(rs: seq<Reception>) {
    forall i | 0 <= i < |rs| :: !Spells(rs[i].bits, 10)
  }

  /** The receptions behind an outcome. The string ends with the first line feed, 10, and is filled
      up with spaces, 32; every missing stop bit is reported. One character more than fit in the
      range without a line feed is out of range, and while none can be received nothing happens. */
  ghost predicate Explains(before: bool, rx: seq<Transaction>, bitPeriod: nat, start: int, range: nat,
                           rs: seq<Reception>, outcome: Outcome) {
    && InTurn(before, rx, bitPeriod, start, rs)
    && match outcome
       case Done(message, stopErrors) =>
         && 0 < |rs| <= range == |message| && NoLineFeed(rs[..|rs| - 1]) && Spells(rs[|rs| - 1].bits, 10)
         && (forall i | 0 <= i < |rs| :: Spells(rs[i].bits, message[i]))
         && (forall i | |rs| <= i < range :: message[i] == 32)
         && stopErrors == |StopsMissed(rs)|
       case OutOfRange => |rs| == range + 1 && NoLineFeed(rs[..range])
       case Waiting =>
         && |rs| <= range && NoLineFeed(rs)
         && forall r :: !Receives(before, rx, bitPeriod, BackAt(start, rs), 8, r)
  }

  function StopsMissed(rs: seq<Reception>): set<nat> {
    set i | 0 <= i < |rs| && !rs[i].stopSeen
  }

  lemma StopsMissedSnoc(rs: seq<Reception>, r: Reception)
    ensures |StopsMissed(rs + [r])| == |StopsMissed(rs)| + if r.stopSeen then 0 else 1
  {
    assert StopsMissed(rs + [r]) == StopsMissed(rs) + if r.stopSeen then {} else {|rs|};
  }

  lemma SpellsIff(bits: seq<bool>, c: nat)
    requires |bits| == 8
    ensures Spells(bits, c) <==> c == CharValue(bits)
  {
    hide Bits, Value, Pow2;
    if c == CharValue(bits) {
      ValueBound(bits);
      Pow2Of8();
      ValueRoundTrip(bits);
      forall i: nat | i < 8 ensures bits[i] == (c / Pow2(i) % 2 == 1) {
        BitsAt(c, 8, i);
      }
    } else if Spells(bits, c) {
      forall i | 0 <= i < 8 ensures bits[i] == CharBits(c)[i] {
        BitsAt(c, 8, i);
      }
      assert bits == CharBits(c);
      CharRoundTrip(c);
    }
  }

  /** What has been received while the string is not over. */
  ghost predicate Gathered(before: bool, rx: seq<Transaction>, bitPeriod: nat, start: int, range: nat,
                           rs: seq<Reception>, got: seq<Byte>, stopErrors: nat) {
    && InTurn(before, rx, bitPeriod, start, rs) && |rs| == |got| <= range && NoLineFeed(rs)
    && (forall i | 0 <= i < |rs| :: Spells(rs[i].bits, got[i]))
    && stopErrors == |StopsMissed(rs)|
  }

  lemma InTurnSnoc(before: bool, rx: seq<Transaction>, bitPeriod: nat, start: int, rs: seq<Reception>, r: Reception)
    requires InTurn(before, rx, bitPeriod, start, rs)
    requires Receives(before, rx, bitPeriod, BackAt(start, rs), 8, r)
    ensures InTurn(before, rx, bitPeriod, start, rs + [r])
  {
    hide Receives, BackAt;
    assert (rs + [r])[..|rs|] == rs;
    forall i | 0 <= i < |rs| ensures (rs + [r])[..i] == rs[..i] {
    }
  }

  /** Every run of rcv_string is explained by what the wire gives. */
  lemma {:induction false} OutcomeExplained(before: bool, rx: seq<Transaction>, bitPeriod: nat, start: int, range: nat,
                                            rs: seq<Reception>, got: seq<Byte>, stopErrors: nat)
    returns (all: seq<Reception>)
    requires Gathered(before, rx, bitPeriod, start, range, rs, got, stopErrors)
    ensures Explains(before, rx, bitPeriod, start, range, all,
                     ReceivedString(before, rx, bitPeriod, BackAt(start, rs), range, got, stopErrors))
    decreases range - |got|
  {
    hide Receives, Received, InTurn, Spells, StopsMissed, CharValue;
    var now := BackAt(start, rs);
    ReceivedExplained(before, rx, bitPeriod, now, 8);
    if Received(before, rx, bitPeriod, now, 8) == None {
      return rs;
    }
    var r := Received(before, rx, bitPeriod, now, 8).value;
    ReceivesIff(before, rx, bitPeriod, now, 8, r);
    all := rs + [r];
    InTurnSnoc(before, rx, bitPeriod, start, rs, r);
    assert all[..|rs|] == rs;
    if |got| == range {
      return;
    }
    StopsMissedSnoc(rs, r);
    SpellsIff(r.bits, 10);
    var cc := CharValue(r.bits);
    SpellsIff(r.bits, cc);
    if cc != LF {
      all := OutcomeExplained(before, rx, bitPeriod, start, range, all, got + [cc],
        if r.stopSeen then stopErrors else stopErrors + 1);
    }
  }

  lemma RunExplained(before: bool, rx: seq<Transaction>, bitPeriod: nat, start: int, range: nat)
    ensures var outcome := ReceivedString(before, rx, bitPeriod, start, range, [], 0);
            exists rs :: Explains(before, rx, bitPeriod, start, range, rs, outcome)
  {
    hide Explains, ReceivedString, Spells;
    var rs := OutcomeExplained(before, rx, bitPeriod, start, range, [], [], 0);
  }

  method RcvString(before: bool, rx: seq<Transaction>, bitPeriod: nat, start: int, range: nat)
    returns (outcome: Outcome)
    ensures outcome == ReceivedString(before, rx, bitPeriod, start, range, [], 0)
    ensures exists rs :: Explains(before, rx, bitPeriod, start, range, rs, outcome)
  {
    hide Explains, Received;
    RunExplained(before, rx, bitPeriod, start, range);
    var now := start;
    var ret: seq<Byte> := Spaces(range);
    var cc: Byte := 120;
    var i: nat := 1;
    var errors := 0;
    while cc != LF
      invariant 1 <= i <= range + 1 && |ret| == range
      invariant ret[i - 1..] == Spaces(range + 1 - i)
      invariant cc != LF ==> ReceivedString(before, rx, bitPeriod, start, range, [], 0)
                             == ReceivedString(before, rx, bitPeriod, now, range, ret[..i - 1], errors)
      invariant cc == LF ==> ReceivedString(before, rx, bitPeriod, start, range, [], 0) == Done(ret, errors)
      decreases cc != LF, range + 1 - i
    {
      var r := RcvBits(before, rx, bitPeriod, now, 8);
      if r == None {
        return Waiting;
      }
      if !r.value.stopSeen {
        errors := errors + 1;
      }
      cc := CharValue(r.value.bits);
      if i > range {
        return OutOfRange;
      }
      ghost var got := ret[..i - 1];
      ret := ret[i - 1 := cc];
      assert ret[..i] == got + [cc];
      assert ret[i..] == Spaces(range - i);
      assert ret == ret[..i] + ret[i..];
      i := i + 1;
      now := r.value.now;
    }
    return Done(ret, errors);
  }

  // ---------------------------------------------------------------- how far the periods may differ

  /** The stop bit is sampled after it starts and the last data bit before it ends. */
  predicate InWindow(sendPeriod: nat, rcvPeriod: nat) {
    9 * sendPeriod < rcvPeriod / 2 + 9 * rcvPeriod && rcvPeriod / 2 + 8 * rcvPeriod <= 9 * sendPeriod
  }

  /** For an even receiver period the window is 18/19 < R/T <= 18/17. */
  lemma EvenWindow(sendPeriod: nat, rcvPeriod: nat)
    requires rcvPeriod % 2 == 0
    ensures InWindow(sendPeriod, rcvPeriod) <==> 18 * sendPeriod < 19 * rcvPeriod && 17 * rcvPeriod <= 18 * sendPeriod
  {
    assert rcvPeriod == 2 * (rcvPeriod / 2);
  }

  /** Inside the window every one of the eight samples and the stop sample fall in their own bit,
      and the receiver is back waiting before the next frame begins. */
  lemma SamplesInside(sendPeriod: nat, rcvPeriod: nat, i: nat)
    requires InWindow(sendPeriod, rcvPeriod) && i <= 8
    ensures 0 < rcvPeriod / 2 <= sendPeriod
    ensures (i + 1) * sendPeriod < rcvPeriod / 2 + (i + 1) * rcvPeriod
    ensures i < 8 ==> rcvPeriod / 2 + (i + 1) * rcvPeriod <= (i + 2) * sendPeriod
    ensures rcvPeriod / 2 + 9 * rcvPeriod <= 11 * sendPeriod
  {
    assert i == 0 || i == 1 || i == 2 || i == 3 || i == 4 || i == 5 || i == 6 || i == 7 || i == 8;
  }

  lemma Multiples(i: int, j: int, bitPeriod: nat)
    requires i <= j
    ensures i * bitPeriod <= j * bitPeriod
  {
  }

  /** A frame cut after its j-th assignment: all before on one side, all after on the other. */
  lemma FrameCut(b: int, bitPeriod: nat, message: seq<bool>, j: nat, t: int)
    requires |message| == 8 && j <= 11
    requires b + j * bitPeriod < t && (j < 11 ==> t <= b + (j + 1) * bitPeriod)
    ensures Before(Frame(b, bitPeriod, message)[..j + 1], t)
    ensures NotBefore(Frame(b, bitPeriod, message)[j + 1..], t)
  {
    var frame := Frame(b, bitPeriod, message);
    forall i | 0 <= i <= j ensures frame[i].at < t {
      Multiples(i, j, bitPeriod);
    }
    forall i | j < i < 12 ensures t <= frame[i].at {
      Multiples(j + 1, i, bitPeriod);
    }
  }

  /** While a frame starting at b is on the wire, each of its levels lasts one period (the idle
      level after the stop bit lasts until 13 periods have gone by). */
  lemma FrameSample(before: bool, u: seq<Transaction>, b: int, bitPeriod: nat, message: seq<bool>,
                    rest: seq<Transaction>, j: nat, t: int)
    requires |message| == 8 && Before(u, b) && NotBefore(rest, b + 13 * bitPeriod)
    requires j <= 11 && b + j * bitPeriod < t <= b + (if j < 11 then j + 1 else 13) * bitPeriod
    ensures Level(before, u + (Frame(b, bitPeriod, message) + rest), t) == FrameLevel(message, j)
  {
    var frame := Frame(b, bitPeriod, message);
    var early, late := u + frame[..j + 1], frame[j + 1..] + rest;
    assert u + (frame + rest) == early + late;
    FrameCut(b, bitPeriod, message, j, t);
    Multiples(0, j, bitPeriod);
    Multiples(if j < 11 then j + 1 else 13, 13, bitPeriod);
    LevelAt(before, early, late, t);
  }

  /** A receiver that is already waiting finds the start bit of the next frame. */
  lemma FindsStart(before: bool, u: seq<Transaction>, b: int, bitPeriod: nat, message: seq<bool>,
                   rest: seq<Transaction>, now: int)
    requires |message| == 8 && now <= b + bitPeriod
    requires forall i :: 0 <= i < |u| && now <= u[i].at ==> u[i].level
    ensures NextFall(before, u + (Frame(b, bitPeriod, message) + rest), now) == Some(b + bitPeriod)
  {
    var frame := Frame(b, bitPeriod, message);
    var idle, start := frame[0], frame[1];
    assert frame + rest == [idle] + ([start] + (frame[2..] + rest));
    SkipQuiet(before, u, frame + rest, now);
    assert ([start] + (frame[2..] + rest))[0] == start;
    assert (frame + rest)[1..] == [start] + (frame[2..] + rest);
  }

  /** Inside the window the i-th data sample reads the i-th bit of the frame. */
  lemma DataSample(before: bool, u: seq<Transaction>, b: int, sendPeriod: nat, rcvPeriod: nat,
                   message: seq<bool>, rest: seq<Transaction>, i: nat)
    requires InWindow(sendPeriod, rcvPeriod) && |message| == 8 && i < 8
    requires Before(u, b) && NotBefore(rest, b + 13 * sendPeriod)
    ensures Level(before, u + (Frame(b, sendPeriod, message) + rest),
                  b + sendPeriod + rcvPeriod / 2 + (i + 1) * rcvPeriod) == message[i]
  {
    SamplesInside(sendPeriod, rcvPeriod, i);
    assert (i + 2) * sendPeriod == (i + 1) * sendPeriod + sendPeriod;
    assert (i + 3) * sendPeriod == (i + 2) * sendPeriod + sendPeriod;
    FrameSample(before, u, b, sendPeriod, message, rest, i + 2,
                b + sendPeriod + rcvPeriod / 2 + (i + 1) * rcvPeriod);
  }

  /** Inside the window the stop sample reads the stop bit or the idle level after it. */
  lemma StopSample(before: bool, u: seq<Transaction>, b: int, sendPeriod: nat, rcvPeriod: nat,
                   message: seq<bool>, rest: seq<Transaction>)
    requires InWindow(sendPeriod, rcvPeriod) && |message| == 8
    requires Before(u, b) && NotBefore(rest, b + 13 * sendPeriod)
    ensures Level(before, u + (Frame(b, sendPeriod, message) + rest),
                  b + sendPeriod + rcvPeriod / 2 + 9 * rcvPeriod)
  {
    SamplesInside(sendPeriod, rcvPeriod, 8);
    var stop := b + sendPeriod + rcvPeriod / 2 + 9 * rcvPeriod;
    FrameSample(before, u, b, sendPeriod, message, rest, if stop <= b + 11 * sendPeriod then 10 else 11, stop);
  }

  /** Inside the window one frame is received exactly, whatever came before and comes after. */
  lemma FrameReceived(before: bool, u: seq<Transaction>, b: int, sendPeriod: nat, rcvPeriod: nat,
                      message: seq<bool>, rest: seq<Transaction>, now: int)
    requires InWindow(sendPeriod, rcvPeriod) && |message| == 8 && now <= b + sendPeriod
    requires Before(u, b) && NotBefore(rest, b + 13 * sendPeriod)
    requires forall i :: 0 <= i < |u| && now <= u[i].at ==> u[i].level
    ensures Received(before, u + (Frame(b, sendPeriod, message) + rest), rcvPeriod, now, 8)
            == Some(Reception(message, true, b + sendPeriod + rcvPeriod / 2 + 9 * rcvPeriod))
  {
    var rx := u + (Frame(b, sendPeriod, message) + rest);
    var origin := b + sendPeriod + rcvPeriod / 2;
    assert Origin(before, rx, rcvPeriod, now) == Some(origin) by {
      FindsStart(before, u, b, sendPeriod, message, rest, now);
      SamplesInside(sendPeriod, rcvPeriod, 0);
      FrameSample(before, u, b, sendPeriod, message, rest, 1, origin);
    }
    var samples := Samples(before, rx, rcvPeriod, origin, 8);
    forall i | 0 <= i < 8 ensures samples[i] == message[i] {
      DataSample(before, u, b, sendPeriod, rcvPeriod, message, rest, i);
    }
    assert samples == message;
    StopSample(before, u, b, sendPeriod, rcvPeriod, message, rest);
  }

  /** Whatever follows in a transmission comes no earlier than its start. */
  lemma {:induction false} TransmissionStart(b: int, bitPeriod: nat, s: seq<Byte>)
    ensures NotBefore(Transmission(b, bitPeriod, s), b)
    decreases s
  {
    if s != [] {
      TransmissionStart(b + 13 * bitPeriod, bitPeriod, s[1..]);
    }
  }

  /** A text as rcv_string takes it: the line feed is its last character and occurs nowhere else. */
  predicate IsLine(s: seq<Byte>) {
    s != [] && s[|s| - 1] == LF && LF !in s[..|s| - 1]
  }

  /** Nothing falls once a frame has come to its stop bit. */
  lemma QuietAfter(b: int, bitPeriod: nat, message: seq<bool>, now: int)
    requires |message| == 8 && 0 < bitPeriod && b + 10 * bitPeriod < now
    ensures Before(Frame(b, bitPeriod, message), b + 13 * bitPeriod)
    ensures var frame := Frame(b, bitPeriod, message);
            forall i :: 0 <= i < |frame| && now <= frame[i].at ==> frame[i].level
  {
    FrameCut(b, bitPeriod, message, 11, b + 13 * bitPeriod);
    FrameCut(b, bitPeriod, message, 10, b + 11 * bitPeriod);
    var frame := Frame(b, bitPeriod, message);
    assert frame == frame[..12];
    assert Before(frame[..11], b + 11 * bitPeriod);
    forall i | 0 <= i < 12 && now <= frame[i].at ensures frame[i].level {
      if 2 <= i < 10 {
        Multiples(i, 10, bitPeriod);
        assert false;
      }
    }
  }

  /** One turn of rcv_string takes exactly the character whose frame is next. */
  lemma CharReceived(before: bool, u: seq<Transaction>, b: int, sendPeriod: nat, rcvPeriod: nat,
                     c: Byte, rest: seq<Transaction>, now: int, range: nat, got: seq<Byte>)
    requires InWindow(sendPeriod, rcvPeriod) && now <= b + sendPeriod && |got| < range
    requires Before(u, b) && NotBefore(rest, b + 13 * sendPeriod)
    requires forall i :: 0 <= i < |u| && now <= u[i].at ==> u[i].level
    ensures var rx := u + (Frame(b, sendPeriod, CharBits(c)) + rest);
            ReceivedString(before, rx, rcvPeriod, now, range, got, 0)
            == if c == LF then Done(got + [c] + Spaces(range - |got| - 1), 0)
               else ReceivedString(before, rx, rcvPeriod, b + sendPeriod + rcvPeriod / 2 + 9 * rcvPeriod, range,
                                   got + [c], 0)
  {
    hide Received, Frame, CharBits, CharValue;
    FrameReceived(before, u, b, sendPeriod, rcvPeriod, CharBits(c), rest, now);
    CharRoundTrip(c);
  }

  /** Each start edge resynchronises the receiver, so drift does not add up over the string. */
  lemma {:induction false} StringReceived(before: bool, u: seq<Transaction>, b: int, sendPeriod: nat, rcvPeriod: nat,
                                          s: seq<Byte>, now: int, range: nat, got: seq<Byte>)
    requires InWindow(sendPeriod, rcvPeriod) && now <= b + sendPeriod
    requires Before(u, b)
    requires forall i :: 0 <= i < |u| && now <= u[i].at ==> u[i].level
    requires IsLine(s) && |got| <= range
    ensures ReceivedString(before, u + Transmission(b, sendPeriod, s), rcvPeriod, now, range, got, 0)
            == if |got| + |s| <= range then Done(got + s + Spaces(range - |got| - |s|), 0) else OutOfRange
    decreases s
  {
    hide *;
    LineFront(s);
    var c, next := s[0], b + 13 * sendPeriod;
    var frame, rest := Frame(b, sendPeriod, CharBits(c)), Transmission(next, sendPeriod, s[1..]);
    TransmissionFront(b, sendPeriod, s);
    TransmissionStart(next, sendPeriod, s[1..]);
    if |got| == range {
      NoRoom(before, u, b, sendPeriod, rcvPeriod, c, rest, now, range, got);
      return;
    }
    CharReceived(before, u, b, sendPeriod, rcvPeriod, c, rest, now, range, got);
    if c == LF {
      TransmissionNone(next, sendPeriod);
    } else {
      var later := b + sendPeriod + rcvPeriod / 2 + 9 * rcvPeriod;
      ConcatAssoc(u, frame, rest);
      NextReady(u, b, sendPeriod, rcvPeriod, c, now);
      StringReceived(before, u + frame, next, sendPeriod, rcvPeriod, s[1..], later, range, got + [c]);
      assert got + [c] + s[1..] == got + s;
    }
  }

  lemma LineFront(s: seq<Byte>)
    requires IsLine(s)
    ensures s != [] && (s[0] == LF ==> s == [LF]) && (s[0] != LF ==> IsLine(s[1..]) && |s| > 1)
  {
    if s[0] != LF {
      assert s[1..][..|s| - 2] == s[1..|s| - 1];
    }
  }

  lemma TransmissionNone(b: int, bitPeriod: nat)
    ensures Transmission(b, bitPeriod, []) == []
  {
  }

  /** With the caller's range used up one more character is one too many. */
  lemma NoRoom(before: bool, u: seq<Transaction>, b: int, sendPeriod: nat, rcvPeriod: nat,
               c: Byte, rest: seq<Transaction>, now: int, range: nat, got: seq<Byte>)
    requires InWindow(sendPeriod, rcvPeriod) && now <= b + sendPeriod && |got| == range
    requires Before(u, b) && NotBefore(rest, b + 13 * sendPeriod)
    requires forall i :: 0 <= i < |u| && now <= u[i].at ==> u[i].level
    ensures ReceivedString(before, u + (Frame(b, sendPeriod, CharBits(c)) + rest), rcvPeriod, now, range, got, 0)
            == OutOfRange
  {
    FrameReceived(before, u, b, sendPeriod, rcvPeriod, CharBits(c), rest, now);
  }

  /** After a character the receiver waits again before the next frame begins. */
  lemma NextReady(u: seq<Transaction>, b: int, sendPeriod: nat, rcvPeriod: nat, c: Byte, now: int)
    requires InWindow(sendPeriod, rcvPeriod) && Before(u, b)
    ensures var frame, later := Frame(b, sendPeriod, CharBits(c)), b + sendPeriod + rcvPeriod / 2 + 9 * rcvPeriod;
            Before(u + frame, b + 13 * sendPeriod) && later <= b + 13 * sendPeriod + sendPeriod
            && forall i :: 0 <= i < |u + frame| && later <= (u + frame)[i].at ==> (u + frame)[i].level
  {
    hide Frame;
    SamplesInside(sendPeriod, rcvPeriod, 8);
    QuietAfter(b, sendPeriod, CharBits(c), b + sendPeriod + rcvPeriod / 2 + 9 * rcvPeriod);
  }

  /** Round trip: for every line, rcv_string returns what send_string sent if it fits in the
      caller's range, and runs out of range if it does not. */
  lemma StringRoundTrip(before: bool, b: int, sendPeriod: nat, rcvPeriod: nat, s: seq<Byte>, now: int, range: nat)
    requires InWindow(sendPeriod, rcvPeriod) && now <= b + sendPeriod
    requires IsLine(s)
    ensures ReceivedString(before, Transmission(b, sendPeriod, s), rcvPeriod, now, range, [], 0)
            == if |s| <= range then Done(s + Spaces(range - |s|), 0) else OutOfRange
  {
    StringReceived(before, [], b, sendPeriod, rcvPeriod, s, now, range, []);
    assert [] + Transmission(b, sendPeriod, s) == Transmission(b, sendPeriod, s);
  }

  /** A single frame is received exactly: right bits and a stop bit. */
  ghost predicate ReceivesExactly(before: bool, b: int, sendPeriod: nat, rcvPeriod: nat, c: Byte, now: int) {
    var r := Received(before, Frame(b, sendPeriod, CharBits(c)), rcvPeriod, now, 8);
    r.Some? && r.value.bits == CharBits(c) && r.value.stopSeen
  }

  lemma ZeroBits()
    ensures CharBits(0) == [false, false, false, false, false, false, false, false]
  {
    assert Bits(0, 4) == [false, false, false, false];
    assert Bits(0, 6) == [false, false, false, false, false, false];
  }

  /** Outside the window the character 0 is lost: either its last data bit is sampled after the
      line has gone high, or the stop bit is sampled while the line is still low. */
  lemma ZeroMissedOutside(before: bool, b: int, sendPeriod: nat, rcvPeriod: nat, now: int)
    requires 0 < sendPeriod && 0 < rcvPeriod && !InWindow(sendPeriod, rcvPeriod) && now <= b + sendPeriod
    ensures !ReceivesExactly(before, b, sendPeriod, rcvPeriod, 0, now)
  {
    ZeroBits();
    var message := CharBits(0);
    var frame := Frame(b, sendPeriod, message);
    var half, start := rcvPeriod / 2, b + sendPeriod;
    assert [] + (frame + []) == frame;
    FindsStart(before, [], b, sendPeriod, message, [], now);
    if half <= 9 * sendPeriod {
      if half != 0 {
        LowUntilStop(before, b, sendPeriod, message, start + half);
      }
      if 9 * sendPeriod < half + 8 * rcvPeriod {
        HighAfterStop(before, b, sendPeriod, message, start + half + 8 * rcvPeriod);
        assert Samples(before, frame, rcvPeriod, start + half, 8)[7];
      } else {
        LowUntilStop(before, b, sendPeriod, message, start + half + 9 * rcvPeriod);
      }
    } else {
      HighAfterStop(before, b, sendPeriod, message, start + half);
      NoFallAfterStop(before, b, sendPeriod, message, start + half);
    }
  }

  lemma LowUntilStop(before: bool, b: int, bitPeriod: nat, message: seq<bool>, t: int)
    requires message == CharBits(0) && b + bitPeriod < t <= b + 10 * bitPeriod
    ensures !Level(before, Frame(b, bitPeriod, message), t)
  {
    ZeroBits();
    var frame := Frame(b, bitPeriod, message);
    assert [] + (frame + []) == frame;
    var j: nat :| 1 <= j <= 9 && b + j * bitPeriod < t <= b + (j + 1) * bitPeriod by {
      if t <= b + 2 * bitPeriod { assert b + 1 * bitPeriod < t; }
      else if t <= b + 3 * bitPeriod { assert b + 2 * bitPeriod < t; }
      else if t <= b + 4 * bitPeriod { assert b + 3 * bitPeriod < t; }
      else if t <= b + 5 * bitPeriod { assert b + 4 * bitPeriod < t; }
      else if t <= b + 6 * bitPeriod { assert b + 5 * bitPeriod < t; }
      else if t <= b + 7 * bitPeriod { assert b + 6 * bitPeriod < t; }
      else if t <= b + 8 * bitPeriod { assert b + 7 * bitPeriod < t; }
      else if t <= b + 9 * bitPeriod { assert b + 8 * bitPeriod < t; }
      else { assert b + 9 * bitPeriod < t; }
    }
    FrameSample(before, [], b, bitPeriod, message, [], j, t);
  }

  lemma HighAfterStop(before: bool, b: int, bitPeriod: nat, message: seq<bool>, t: int)
    requires |message| == 8 && b + 10 * bitPeriod < t
    ensures Level(before, Frame(b, bitPeriod, message), t)
  {
    var frame := Frame(b, bitPeriod, message);
    var j := if b + 11 * bitPeriod < t then 11 else 10;
    FrameCut(b, bitPeriod, message, j, t);
    assert frame == frame[..j + 1] + frame[j + 1..];
    LevelAt(before, frame[..j + 1], frame[j + 1..], t);
  }

  lemma NoFallAfterStop(before: bool, b: int, bitPeriod: nat, message: seq<bool>, now: int)
    requires |message| == 8 && 0 < bitPeriod && b + 10 * bitPeriod < now
    ensures NextFall(before, Frame(b, bitPeriod, message), now) == None
  {
    var frame := Frame(b, bitPeriod, message);
    QuietAfter(b, bitPeriod, message, now);
    assert frame + [] == frame;
    SkipQuiet(before, frame, [], now);
  }

  /** The window is exact: it holds just when every character, sent at any time to a receiver
      that starts waiting before the start bit, arrives intact with its stop bit. */
  lemma WindowIsExact(sendPeriod: nat, rcvPeriod: nat)
    requires 0 < sendPeriod && 0 < rcvPeriod
    ensures InWindow(sendPeriod, rcvPeriod)
            <==> forall before, b, c, now | now <= b + sendPeriod ::
              ReceivesExactly(before, b, sendPeriod, rcvPeriod, c, now)
  {
    if InWindow(sendPeriod, rcvPeriod) {
      forall before, b, c, now | now <= b + sendPeriod
        ensures ReceivesExactly(before, b, sendPeriod, rcvPeriod, c, now)
      {
        FrameReceived(before, [], b, sendPeriod, rcvPeriod, CharBits(c), [], now);
        assert [] + (Frame(b, sendPeriod, CharBits(c)) + []) == Frame(b, sendPeriod, CharBits(c));
      }
    } else {
      ZeroMissedOutside(true, 0, sendPeriod, rcvPeriod, 0);
    }
  }
}
