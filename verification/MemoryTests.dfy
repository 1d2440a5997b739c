/** The memory tests that run on the boards. Memory is cells that give back what was stored, or not
    quite, and that the address lines reach through a decoder; what the tests can tell about the
    decoder is stated exactly. */
module MemoryTests {
  import opened Common

  const WORD := 0x1_0000_0000

  type Decode = nat -> nat

  /** What a cell gives back for the word stored in it. */
  type Back = (nat, nat) -> nat

  /** A loaded word extended to a register by its sign. */
  function Extended(word: nat): (r: int)
    ensures -0x8000_0000 <= r < 0x8000_0000 && (r - word) % 0x1_0000_0000 == 0
  {
    if word % WORD < 0x8000_0000 then word % WORD else word % WORD - WORD
  }

  class Memory {
    const decode: Decode
    const back: Back
    var cells: map<nat, nat>

    constructor (decode: Decode, back: Back)
      ensures this.decode == decode && this.back == back
    {
      this.decode, this.back, cells := decode, back, map[];
    }

    method Store(addr: nat, register: int)
      modifies this
      ensures cells == old(cells)[decode(addr) := register % WORD]
    {
      cells := cells[decode(addr) := register % WORD];
    }

    method Load(addr: nat) returns (word: nat)
      requires decode(addr) in cells
      ensures word == back(decode(addr), cells[decode(addr)]) % WORD
    {
      word := back(decode(addr), cells[decode(addr)]) % WORD;
    }
  }

  // ---------------------------------------------------------------- write all, then verify all

  /** The k-th value goes to the k-th point. */
  datatype Plan = Plan(point: nat -> nat, value: nat -> nat, count: nat)

  function Written(decode: Decode, plan: Plan, n: nat, cells: map<nat, nat>): map<nat, nat> {
    if n == 0 then cells
    else Written(decode, plan, n - 1, cells)[decode(plan.point(n - 1)) := plan.value(n - 1) % WORD]
  }

  /** The last of the first n points that reach the cell, or -1. */
  function LastAt(decode: Decode, plan: Plan, n: nat, cell: nat): (k: int)
    ensures -1 <= k < n
    ensures k >= 0 ==> decode(plan.point(k)) == cell
    ensures forall j: nat | k < j < n :: decode(plan.point(j)) != cell
  {
    if n == 0 then -1 else if decode(plan.point(n - 1)) == cell then n - 1 else LastAt(decode, plan, n - 1, cell)
  }

  lemma {:induction false} WrittenAt(decode: Decode, plan: Plan, n: nat, cells: map<nat, nat>, cell: nat)
    ensures var k, w := LastAt(decode, plan, n, cell), Written(decode, plan, n, cells);
            if k < 0 then (cell in w <==> cell in cells) && (cell in w ==> w[cell] == cells[cell])
            else cell in w && w[cell] == plan.value(k) % WORD
  {
    if n > 0 {
      WrittenAt(decode, plan, n - 1, cells, cell);
    }
  }

  /** The last point that reaches the cell of the k-th. */
  function Sharer(decode: Decode, plan: Plan, k: nat): (j: nat)
    requires k < plan.count
    ensures k <= j < plan.count && decode(plan.point(j)) == decode(plan.point(k))
    ensures forall i: nat | j < i < plan.count :: decode(plan.point(i)) != decode(plan.point(k))
  {
    LastAt(decode, plan, plan.count, decode(plan.point(k)))
  }

  /** What is loaded from the k-th point after all have been written. */
  function Got(decode: Decode, back: Back, plan: Plan, k: nat): int
    requires k < plan.count
  {
    Extended(back(decode(plan.point(k)), plan.value(Sharer(decode, plan, k)) % WORD))
  }

  datatype Verdict = Pass | Fail(k: nat, got: int)

  /** The first point from the k-th on that does not give back its value. */
  function Verify(decode: Decode, back: Back, plan: Plan, k: nat): Verdict
    requires k <= plan.count
    decreases plan.count - k
  {
    if k == plan.count then Pass
    else if Got(decode, back, plan, k) != plan.value(k) then Fail(k, Got(decode, back, plan, k))
    else Verify(decode, back, plan, k + 1)
  }

  /** The verdict is Pass just when every point gives back its value, and names the first that does not. */
  lemma {:induction false} VerifyMeaning(decode: Decode, back: Back, plan: Plan, k: nat)
    requires k <= plan.count
    ensures match Verify(decode, back, plan, k)
            case Pass => forall j: nat | k <= j < plan.count :: Got(decode, back, plan, j) == plan.value(j)
            case Fail(bad, got) =>
              k <= bad < plan.count && got == Got(decode, back, plan, bad) != plan.value(bad)
              && forall j: nat | k <= j < bad :: Got(decode, back, plan, j) == plan.value(j)
    decreases plan.count - k
  {
    hide Got;
    if k < plan.count && Got(decode, back, plan, k) == plan.value(k) {
      VerifyMeaning(decode, back, plan, k + 1);
    }
  }

  // ---------------------------------------------------------------- ideal cells

  function Ideal(): Back {
    (cell, word) => word
  }

  /** The values fit a register loaded from a word, and no two are the same. */
  ghost predicate Telling(plan: Plan) {
    (forall k: nat | k < plan.count :: plan.value(k) < 0x8000_0000)
    && forall j: nat, k: nat | j < k < plan.count :: plan.value(j) != plan.value(k)
  }

  ghost predicate Injective(decode: Decode, plan: Plan) {
    forall j: nat, k: nat | j < k < plan.count :: decode(plan.point(j)) != decode(plan.point(k))
  }

  /** The k-th point reaches the same cell as a later one. */
  predicate Shared(decode: Decode, plan: Plan, k: nat) {
    k < plan.count && Sharer(decode, plan, k) != k
  }

  lemma SharedIff(decode: Decode, plan: Plan, k: nat)
    requires k < plan.count
    ensures Shared(decode, plan, k)
            <==> exists j: nat | k < j < plan.count :: decode(plan.point(j)) == decode(plan.point(k))
  {
    var j := Sharer(decode, plan, k);
    if j != k {
      assert k < j < plan.count && decode(plan.point(j)) == decode(plan.point(k));
    }
  }

  lemma GotIdeal(decode: Decode, plan: Plan, k: nat)
    requires Telling(plan) && k < plan.count
    ensures Got(decode, Ideal(), plan, k) == plan.value(Sharer(decode, plan, k))
    ensures Got(decode, Ideal(), plan, k) == plan.value(k) <==> !Shared(decode, plan, k)
  {
    var j := Sharer(decode, plan, k);
    assert plan.value(j) < 0x8000_0000;
  }

  /** Over ideal cells the test passes just when no two of its points reach the same cell; else it
      names the first point that shares its cell with a later one, and gets the value of the last
      of those. */
  lemma VerifyIdeal(decode: Decode, plan: Plan)
    requires Telling(plan)
    ensures Verify(decode, Ideal(), plan, 0) == Pass <==> Injective(decode, plan)
    ensures var v := Verify(decode, Ideal(), plan, 0);
            v.Fail? ==> Shared(decode, plan, v.k) && (forall j: nat | j < v.k :: !Shared(decode, plan, j))
                        && v.got == plan.value(Sharer(decode, plan, v.k))
  {
    hide Got, Telling, Verify;
    VerifyMeaning(decode, Ideal(), plan, 0);
    forall k: nat | k < plan.count
      ensures Got(decode, Ideal(), plan, k) == plan.value(k) <==> !Shared(decode, plan, k)
      ensures Got(decode, Ideal(), plan, k) == plan.value(Sharer(decode, plan, k))
      ensures !Shared(decode, plan, k)
              <==> forall j: nat | k < j < plan.count :: decode(plan.point(j)) != decode(plan.point(k))
    {
      GotIdeal(decode, plan, k);
      SharedIff(decode, plan, k);
    }
    if Injective(decode, plan) {
      forall k: nat | k < plan.count ensures !Shared(decode, plan, k) {
        assert forall j: nat | k < j < plan.count :: decode(plan.point(k)) != decode(plan.point(j));
      }
    } else {
      var j: nat, k: nat :| j < k < plan.count && decode(plan.point(j)) == decode(plan.point(k));
      assert Shared(decode, plan, j);
    }
  }

  // ---------------------------------------------------------------- the three plans

  const WORD_START := 0x80000
  const WORD_END := 0x92000
  const BANK_OFFSET := 0x100000
  const MARCH_END := 0x4000_0000
  const MARCH_STEP := 0x80_0000

  /** Every word of the range holds its own address. */
  function Words(): Plan {
    Plan(k => WORD_START + 4 * k, k => WORD_START + 4 * k, 0x4800)
  }

  /** One word in each of the eight banks. */
  function Banks(): Plan {
    Plan(k => BANK_OFFSET + k * 0x800_0000, k => 0x5AFE_0000 + k, 8)
  }

  /** One word in every 8 MB holds its own address. */
  function March(): Plan {
    Plan(k => BANK_OFFSET + k * MARCH_STEP, k => BANK_OFFSET + k * MARCH_STEP, 128)
  }

  ghost predicate IsPoint(plan: Plan, a: nat) {
    exists k: nat | k < plan.count :: plan.point(k) == a
  }

  /** Each point holds its own address, and they come in ascending order. */
  ghost predicate OwnAddresses(plan: Plan) {
    && (forall k: nat | k < plan.count :: plan.value(k) == plan.point(k))
    && forall j: nat, k: nat | j < k < plan.count :: plan.point(j) < plan.point(k)
  }

  /** The points of the word test are the words from 0x80000 up to 0x92000. */
  lemma WordPoints(a: nat)
    ensures IsPoint(Words(), a) <==> 0x8_0000 <= a < 0x9_2000 && a % 4 == 0
    ensures OwnAddresses(Words())
  {
    if 0x8_0000 <= a < 0x9_2000 && a % 4 == 0 {
      assert Words().point((a - 0x8_0000) / 4) == a;
    }
  }

  /** Bank i is tested 1 MB into the i-th 128 MB, with a value of its own. */
  lemma BankPoints(i: nat)
    requires i < 8
    ensures var banks := Banks();
            banks.count == 8 && banks.point(i) / 0x800_0000 == i && banks.point(i) % 0x800_0000 == 0x10_0000
            && banks.value(i) == 0x5AFE_0000 + i
  {
  }

  /** The points of the march are those 1 MB into each 8 MB below 1 GB. */
  lemma MarchPoints(a: nat)
    ensures IsPoint(March(), a) <==> a < 0x4000_0000 && a % 0x80_0000 == 0x10_0000
    ensures OwnAddresses(March())
  {
    if a < 0x4000_0000 && a % 0x80_0000 == 0x10_0000 {
      assert March().point(a / 0x80_0000) == a;
    }
  }

  lemma PlansTelling()
    ensures Telling(Words()) && Telling(Banks()) && Telling(March())
  {
  }

  lemma WrittenStep(decode: Decode, plan: Plan, n: nat, cells: map<nat, nat>)
    ensures Written(decode, plan, 0, cells) == cells
    ensures Written(decode, plan, n + 1, cells)
            == Written(decode, plan, n, cells)[decode(plan.point(n)) := plan.value(n) % WORD]
  {
  }

  lemma VerifyStep(decode: Decode, back: Back, plan: Plan, k: nat, cells: map<nat, nat>)
    requires k < plan.count
    ensures var w, c := Written(decode, plan, plan.count, cells), decode(plan.point(k));
            c in w && Extended(back(c, w[c]) % WORD) == Got(decode, back, plan, k)
    ensures Verify(decode, back, plan, k) == if Got(decode, back, plan, k) != plan.value(k) then
            Fail(k, Got(decode, back, plan, k))
                                             else Verify(decode, back, plan, k + 1)
  {
    WrittenAt(decode, plan, plan.count, cells, decode(plan.point(k)));
  }

  lemma VerifyEnd(decode: Decode, back: Back, plan: Plan)
    ensures Verify(decode, back, plan, plan.count) == Pass
  {
  }

  datatype Report = MemOk | Bad(address: nat, got: int)

  method WordTest(mem: Memory) returns (report: Report)
    modifies mem
    ensures report == match Verify(mem.decode, mem.back, Words(), 0)
                      case Pass => MemOk
                      case Fail(k, got) => Bad(Words().point(k), got)
  {
    hide Written, Verify, Got, Extended;
    ghost var n := 0;
    ghost var start, plan := mem.cells, Words();
    WrittenStep(mem.decode, plan, 0, start);
    var t3, t4 := WORD_START, WORD_END;
    var again := true;
    while again
      invariant t3 == WORD_START + 4 * n && n <= plan.count && (again <==> n < plan.count)
      invariant mem.cells == Written(mem.decode, plan, n, start)
      decreases plan.count - n
    {
      WrittenStep(mem.decode, plan, n, start);
      mem.Store(t3, t3);
      t3 := t3 + 4;
      n := n + 1;
      again := t3 < t4;
    }
    t3, again, n := WORD_START, true, 0;
    while again
      invariant t3 == WORD_START + 4 * n && n <= plan.count && (again <==> n < plan.count)
      invariant mem.cells == Written(mem.decode, plan, plan.count, start)
      invariant Verify(mem.decode, mem.back, plan, 0) == Verify(mem.decode, mem.back, plan, n)
      decreases plan.count - n
    {
      VerifyStep(mem.decode, mem.back, plan, n, start);
      var word := mem.Load(t3);
      var t5 := Extended(word);
      if t5 != t3 {
        return Bad(t3, t5);
      }
      t3 := t3 + 4;
      n := n + 1;
      again := t3 < t4;
    }
    VerifyEnd(mem.decode, mem.back, plan);
    return MemOk;
  }

  datatype GigReport = BankBad(i: nat, got: int, expected: nat) | MarchBad(address: nat, got: int) | AllOk(count: nat)

  lemma BankPoint(k: nat)
    ensures Banks().point(k) == k * 0x800_0000 + BANK_OFFSET && Banks().value(k) == 0x5AFE_0000 + k
  {
  }

  method WriteBanks(mem: Memory)
    modifies mem
    ensures mem.cells == Written(mem.decode, Banks(), 8, old(mem.cells))
  {
    hide Written, Banks;
    ghost var start := mem.cells;
    WrittenStep(mem.decode, Banks(), 0, start);
    var s1, again := 0, true;
    while again
      invariant s1 <= 8 && (again <==> s1 < 8)
      invariant mem.cells == Written(mem.decode, Banks(), s1, start)
      decreases 8 - s1
    {
      BankPoint(s1);
      WrittenStep(mem.decode, Banks(), s1, start);
      var s9 := s1 * 0x800_0000 + BANK_OFFSET;
      mem.Store(s9, 0x5AFE_0000 + s1);
      s1 := s1 + 1;
      again := s1 < 8;
    }
  }

  method BankTest(mem: Memory) returns (bad: GigReport)
    modifies mem
    ensures bad == match Verify(mem.decode, mem.back, Banks(), 0)
                   case Pass => AllOk(0)
                   case Fail(k, got) => BankBad(k, got, Banks().value(k))
  {
    ghost var start := mem.cells;
    assert Banks().count == 8;
    hide Written, Verify, Got, Extended, Banks;
    WriteBanks(mem);
    var s1, again := 0, true;
    while again
      invariant s1 <= 8 && (again <==> s1 < 8)
      invariant mem.cells == Written(mem.decode, Banks(), 8, start)
      invariant Verify(mem.decode, mem.back, Banks(), 0) == Verify(mem.decode, mem.back, Banks(), s1)
      decreases 8 - s1
    {
      BankPoint(s1);
      VerifyStep(mem.decode, mem.back, Banks(), s1, start);
      var s9 := s1 * 0x800_0000 + BANK_OFFSET;
      var word := mem.Load(s9);
      var s6, s8 := Extended(word), 0x5AFE_0000 + s1;
      if s6 != s8 {
        return BankBad(s1, s6, s8);
      }
      s1 := s1 + 1;
      again := s1 < 8;
    }
    VerifyEnd(mem.decode, mem.back, Banks());
    return AllOk(0);
  }

  method MarchTest(mem: Memory) returns (bad: GigReport)
    modifies mem
    ensures bad == match Verify(mem.decode, mem.back, March(), 0)
                   case Pass => AllOk(March().count)
                   case Fail(k, got) => MarchBad(March().point(k), got)
  {
    hide Written, Verify, Got, Extended;
    ghost var start, plan, n := mem.cells, March(), 0;
    WrittenStep(mem.decode, plan, 0, start);
    var s1, again := BANK_OFFSET, true;
    while again
      invariant s1 == BANK_OFFSET + n * MARCH_STEP && n <= plan.count && (again <==> n < plan.count)
      invariant mem.cells == Written(mem.decode, plan, n, start)
      decreases plan.count - n
    {
      WrittenStep(mem.decode, plan, n, start);
      mem.Store(s1, s1);
      s1 := s1 + MARCH_STEP;
      n := n + 1;
      again := s1 < MARCH_END;
    }
    s1, again := BANK_OFFSET, true;
    var s2 := 0;
    while again
      invariant s1 == BANK_OFFSET + s2 * MARCH_STEP && s2 <= plan.count && (again <==> s2 < plan.count)
      invariant mem.cells == Written(mem.decode, plan, plan.count, start)
      invariant Verify(mem.decode, mem.back, plan, 0) == Verify(mem.decode, mem.back, plan, s2)
      decreases plan.count - s2
    {
      VerifyStep(mem.decode, mem.back, plan, s2, start);
      var word := mem.Load(s1);
      var s6 := Extended(word);
      if s6 != s1 {
        return MarchBad(s1, s6);
      }
      s2 := s2 + 1;
      s1 := s1 + MARCH_STEP;
      again := s1 < MARCH_END;
    }
    VerifyEnd(mem.decode, mem.back, plan);
    return AllOk(s2);
  }

  /** The bank test, and if it passes the march. */
  method GigTest(mem: Memory) returns (report: GigReport)
    modifies mem
    ensures report == GigOutcome(mem.decode, mem.back)
  {
    report := BankTest(mem);
    if !report.BankBad? {
      report := MarchTest(mem);
    }
  }

  function GigOutcome(decode: Decode, back: Back): GigReport {
    match Verify(decode, back, Banks(), 0)
    case Fail(k, got) => BankBad(k, got, Banks().value(k))
    case Pass =>
      match Verify(decode, back, March(), 0)
      case Fail(k, got) => MarchBad(March().point(k), got)
      case Pass => AllOk(March().count)
  }

  // ---------------------------------------------------------------- what the tests tell about the decoder

  /** Over ideal cells the word test passes just when no two words of the range reach the same cell,
      and otherwise names the lowest word whose cell a higher one reaches too. */
  lemma WordTestExact(decode: Decode)
    ensures var v := Verify(decode, Ideal(), Words(), 0);
            (v == Pass <==> Injective(decode, Words()))
            && (v.Fail? ==> Shared(decode, Words(), v.k) && (forall j: nat | j < v.k :: !Shared(decode, Words(), j)))
  {
    PlansTelling();
    VerifyIdeal(decode, Words());
  }

  /** Over ideal cells the 1 GB test passes just when neither two of the banks nor two of the points of
      the march reach the same cell. */
  lemma GigTestExact(decode: Decode)
    ensures GigOutcome(decode, Ideal()).AllOk? <==> Injective(decode, Banks()) && Injective(decode, March())
  {
    PlansTelling();
    hide Verify;
    VerifyIdeal(decode, Banks());
    VerifyIdeal(decode, March());
  }

  /** The decoder does not look at the bit of this weight. */
  ghost predicate Ignores(decode: Decode, weight: nat)
    requires weight > 0
  {
    forall a: nat | a / weight % 2 == 0 :: decode(a + weight) == decode(a)
  }

  /** If a later point reaches the cell of the first, the test fails at the first, with a later value. */
  lemma FirstShared(decode: Decode, plan: Plan, j: nat)
    requires Telling(plan) && 0 < j < plan.count && decode(plan.point(j)) == decode(plan.point(0))
    ensures var v := Verify(decode, Ideal(), plan, 0);
            v.Fail? && v.k == 0 && exists i | 0 < i < plan.count :: v.got == plan.value(i)
  {
    hide Verify, Telling;
    VerifyIdeal(decode, plan);
    SharedIff(decode, plan, 0);
    assert Shared(decode, plan, 0);
    var i := Sharer(decode, plan, 0);
    assert 0 < i < plan.count;
  }

  /** A decoder that ignores one of bits 27 to 29 fails the 1 GB test at the very first bank, which
      gives back the value of another one. */
  lemma BanksDetect(decode: Decode, weight: nat)
    requires weight == 0x800_0000 || weight == 0x1000_0000 || weight == 0x2000_0000
    requires Ignores(decode, weight)
    ensures var report := GigOutcome(decode, Ideal()); report.BankBad? && report.i == 0 && report.got > report.expected
  {
    hide Verify, Telling, Ideal;
    PlansTelling();
    assert BANK_OFFSET / weight % 2 == 0;
    FirstShared(decode, Banks(), weight / 0x800_0000);
  }

  /** One that ignores any of bits 23 to 29 does not pass it. */
  lemma MarchDetects(decode: Decode, weight: nat)
    requires weight in {0x80_0000, 0x100_0000, 0x200_0000, 0x400_0000, 0x800_0000, 0x1000_0000, 0x2000_0000}
    requires Ignores(decode, weight)
    ensures var v := Verify(decode, Ideal(), March(), 0); v.Fail? && v.k == 0
    ensures !GigOutcome(decode, Ideal()).AllOk?
  {
    hide Verify, Telling, Ideal;
    PlansTelling();
    assert BANK_OFFSET / weight % 2 == 0;
    FirstShared(decode, March(), weight / MARCH_STEP);
  }

  // ---------------------------------------------------------------- a decoder that drops one bit

  predicate Bit(a: nat, weight: nat)
    requires weight > 0
  {
    a / weight % 2 == 1
  }

  lemma QuotientPlus(a: nat, weight: nat, n: nat)
    requires weight > 0
    ensures (a + n * weight) / weight == a / weight + n
  {
    var q := a / weight;
    assert a == q * weight + a % weight;
    assert (q + n) * weight == q * weight + n * weight;
    QuotientIs(a + n * weight, weight, q + n);
  }

  /** The address with the bit of this weight cleared. */
  function Cleared(a: nat, weight: nat): nat
    requires weight > 0
  {
    if !Bit(a, weight) then a
    else
      assert weight <= a by {
        if a < weight {
          QuotientIs(a, weight, 0);
        }
      }
      a - weight
  }

  /** An address line is not connected. */
  function Dropped(weight: nat): Decode
    requires weight > 0
  {
    a => Cleared(a, weight)
  }

  lemma DroppedIgnores(weight: nat)
    requires weight > 0
    ensures Ignores(Dropped(weight), weight)
  {
    hide Cleared;
    forall a: nat | a / weight % 2 == 0 ensures Dropped(weight)(a + weight) == Dropped(weight)(a) {
      ClearedNext(a, weight);
    }
  }

  lemma ClearedNext(a: nat, weight: nat)
    requires weight > 0 && a / weight % 2 == 0
    ensures Cleared(a + weight, weight) == Cleared(a, weight) == a
  {
    var q := a / weight;
    QuotientPlus(a, weight, 1);
    assert (a + weight) / weight == q + 1;
  }

  /** If the line has the same level at all points, and those are distinct, dropping it goes unnoticed. */
  lemma SameLevel(plan: Plan, weight: nat, level: bool)
    requires weight > 0
    requires forall k: nat | k < plan.count :: Bit(plan.point(k), weight) == level
    requires forall j: nat, k: nat | j < k < plan.count :: plan.point(j) != plan.point(k)
    ensures Injective(Dropped(weight), plan)
  {
    hide Bit;
    forall j: nat, k: nat | j < k < plan.count
      ensures Dropped(weight)(plan.point(j)) != Dropped(weight)(plan.point(k))
    {
      assert Bit(plan.point(j), weight) == Bit(plan.point(k), weight);
    }
  }

  /** Multiples of twice the weight do not change the bit. */
  lemma BitKept(a: nat, weight: nat, n: nat)
    requires weight > 0
    ensures Bit(a + n * (2 * weight), weight) == Bit(a, weight)
  {
    assert n * (2 * weight) == (2 * n) * weight;
    QuotientPlus(a, weight, 2 * n);
  }

  lemma {:induction false} Pow2Plus(b: nat, n: nat)
    ensures Pow2(b + n) == Pow2(n) * Pow2(b)
  {
    if n > 0 {
      Pow2Plus(b, n - 1);
    }
  }

  lemma Pow2Values()
    ensures Pow2(0) == 1 && Pow2(1) == 2 && Pow2(2) == 4 && Pow2(4) == 16 && Pow2(8) == 0x100 && Pow2(16) == 0x1_0000
    ensures Pow2(17) == 0x2_0000 && Pow2(18) == 0x4_0000 && Pow2(19) == 0x8_0000 && Pow2(20) == 0x10_0000
    ensures Pow2(22) == 0x40_0000 && Pow2(23) == 0x80_0000 && Pow2(24) == 0x100_0000 && Pow2(25) == 0x200_0000
    ensures Pow2(26) == 0x400_0000 && Pow2(27) == 0x800_0000 && Pow2(28) == 0x1000_0000 && Pow2(29) == 0x2000_0000
    ensures Pow2(30) == 0x4000_0000
  {
  }

  /** Of the bits whose line can be missing the 1 GB test notices just 23 to 29. */
  lemma GigNotices(b: nat)
    ensures GigOutcome(Dropped(Pow2(b)), Ideal()).AllOk? <==> !(23 <= b <= 29)
  {
    hide GigOutcome, Dropped;
    if 23 <= b <= 29 {
      Pow2Values();
      DroppedIgnores(Pow2(b));
      MarchDetects(Dropped(Pow2(b)), Pow2(b));
    } else {
      hide Pow2;
      BanksMiss(b);
      MarchMisses(b);
      GigTestExact(Dropped(Pow2(b)));
    }
  }

  lemma BanksMiss(b: nat)
    requires !(23 <= b <= 29)
    ensures Injective(Dropped(Pow2(b)), Banks())
  {
    hide Pow2, Dropped, Bit, Injective;
    forall k: nat | k < 8 ensures Bit(Banks().point(k), Pow2(b)) == Bit(BANK_OFFSET, Pow2(b)) {
      Undisturbed(b, 16 * k);
    }
    SameLevel(Banks(), Pow2(b), Bit(BANK_OFFSET, Pow2(b)));
  }

  lemma MarchMisses(b: nat)
    requires !(23 <= b <= 29)
    ensures Injective(Dropped(Pow2(b)), March())
  {
    hide Pow2, Dropped, Bit, Injective;
    forall k: nat | k < 128 ensures Bit(March().point(k), Pow2(b)) == Bit(BANK_OFFSET, Pow2(b)) {
      Undisturbed(b, k);
    }
    SameLevel(March(), Pow2(b), Bit(BANK_OFFSET, Pow2(b)));
  }

  lemma Undisturbed(b: nat, k: nat)
    requires b < 23 || (30 <= b && k < 128)
    ensures Bit(BANK_OFFSET + k * MARCH_STEP, Pow2(b)) == Bit(BANK_OFFSET, Pow2(b))
  {
    var w := Pow2(b);
    Pow2Values();
    hide Pow2, Bit;
    if b < 23 {
      var m := Pow2(22 - b);
      Pow2Plus(b, 22 - b);
      Regrouped(k, m, w);
      BitKept(BANK_OFFSET, w, k * m);
    } else {
      Pow2Plus(30, b - 30);
      Below(BANK_OFFSET + k * MARCH_STEP, w, Pow2(b - 30));
      Below(BANK_OFFSET, w, Pow2(b - 30));
    }
  }

  lemma Regrouped(k: nat, m: nat, w: nat)
    ensures k * m * (2 * w) == k * (2 * (m * w))
  {
  }

  lemma Below(a: nat, w: nat, m: nat)
    requires 0 < m && a < 0x4000_0000 && w == m * 0x4000_0000
    ensures !Bit(a, w)
  {
    assert a < w;
    QuotientIs(a, w, 0);
  }

  /** Of the bits whose line can be missing the word test notices just 2 to 16. */
  lemma WordNotices(b: nat)
    ensures Verify(Dropped(Pow2(b)), Ideal(), Words(), 0) == Pass <==> !(2 <= b <= 16)
  {
    hide Verify, Dropped, Bit, Injective, Telling, Pow2;
    var w := Pow2(b);
    PlansTelling();
    if 2 <= b <= 16 {
      WordShared(b);
      FirstShared(Dropped(w), Words(), Pow2(b - 2));
    } else {
      forall k: nat | k < Words().count ensures Bit(Words().point(k), w) == (b == 19) {
        WordBit(b, k);
      }
      SameLevel(Words(), w, b == 19);
      VerifyIdeal(Dropped(w), Words());
    }
  }

  lemma WordShared(b: nat)
    requires 2 <= b <= 16
    ensures var d, j := Dropped(Pow2(b)), Pow2(b - 2);
            0 < j < 0x4800 && d(Words().point(j)) == d(Words().point(0))
  {
    var w, m, n := Pow2(b), Pow2(b - 2), Pow2(16 - b);
    Pow2Plus(2, b - 2);
    Pow2Plus(b, 16 - b);
    Pow2Values();
    assert w == 4 * m && n * w == 0x1_0000;
    hide Pow2, Cleared;
    Factor(n, w);
    EvenMultiple(w, 4 * n);
    assert WORD_START == 2 * (4 * n) * w;
    ClearedNext(WORD_START, w);
  }

  lemma Factor(n: nat, w: nat)
    requires n * w == 0x1_0000
    ensures w <= 0x1_0000 && 2 * (4 * n) * w == WORD_START
  {
    assert 1 <= n;
    assert 2 * (4 * n) * w == 8 * (n * w);
  }

  lemma EvenMultiple(w: nat, k: nat)
    requires w > 0
    ensures 2 * k * w / w % 2 == 0
  {
    QuotientPlus(0, w, 2 * k);
    QuotientIs(0, w, 0);
  }

  lemma WordBit(b: nat, k: nat)
    requires k < 0x4800 && (b < 2 || b > 16)
    ensures Bit(WORD_START + 4 * k, Pow2(b)) == (b == 19)
  {
    Pow2Values();
    if b >= 20 {
      Pow2Plus(20, b - 20);
      QuotientIs(WORD_START + 4 * k, Pow2(b), 0);
    }
  }

  // ---------------------------------------------------------------- one pattern everywhere

  datatype Result = Result(ok: bool, addr: nat, expected: nat, actual: nat)

  class Memtest {
    const baseAddress: nat
    const basePattern: nat
    const cellCount: nat

    constructor (baseAddress: nat, basePattern: nat, cellCount: nat)
      ensures this.baseAddress == baseAddress && this.basePattern == basePattern && this.cellCount == cellCount
    {
      this.baseAddress, this.basePattern, this.cellCount := baseAddress, basePattern, cellCount;
    }

    /** The cell the i-th word is in, and what it gives back for the pattern. */
    function Cell(mem: Memory, i: nat): nat {
      mem.decode(baseAddress + 4 * i)
    }

    function Given(mem: Memory, i: nat): nat {
      mem.back(Cell(mem, i), basePattern % WORD) % WORD
    }

    /** The test passes just when every cell gives back the pattern, however the cells are reached;
        else it names the first word that does not. */
    method Test(mem: Memory) returns (ret: Result)
      modifies mem
      ensures ret.ok <==> forall i: nat | i < cellCount :: Given(mem, i) == basePattern % WORD
      ensures !ret.ok ==>
                exists i: nat | i < cellCount ::
                  ret == Result(false, baseAddress + 4 * i, basePattern % WORD, Given(mem, i))
                    && ret.actual != ret.expected
                  && forall j: nat | j < i :: Given(mem, j) == basePattern % WORD
      ensures mem.back == Ideal() ==> ret.ok
    {
      ret := Result(false, 0, 0, 0);
      if cellCount == 0 {
        ret := ret.(ok := true);
        return;
      }
      mem.Store(baseAddress, basePattern);
      for i := 0 to cellCount
        invariant forall j: nat | j < i :: Cell(mem, j) in mem.cells && mem.cells[Cell(mem, j)] == basePattern % WORD
      {
        mem.Store(baseAddress + 4 * i, basePattern);
      }
      for i := 0 to cellCount
        invariant forall j: nat | j < i :: Given(mem, j) == basePattern % WORD
        invariant forall j: nat | j < cellCount ::
                    Cell(mem, j) in mem.cells && mem.cells[Cell(mem, j)] == basePattern % WORD
      {
        assert Cell(mem, i) in mem.cells;
        var v := mem.Load(baseAddress + 4 * i);
        var e := basePattern % WORD;
        if v != e {
          assert Given(mem, i) == v;
          ret := Result(false, baseAddress + 4 * i, e, v);
          return;
        }
      }
      ret := ret.(ok := true);
    }
  }
}
