/** The records of an Intel HEX stream as the uploader's callback treats them: what they put in memory
    and what they make it print. */
module IhexRecords {
  import opened Common
  import opened Wrappers
  import opened PolledUart

  datatype Kind = Data | EndOfFile | Other(code: nat)

  datatype Record = Record(kind: Kind, address: nat, data: string, checksumError: bool) {
    function TypeCode(): (code: nat)
      ensures (kind.Data? ==> code == 0) && (kind.EndOfFile? ==> code == 1)
      ensures kind.Other? ==> code == kind.code
    {
      match kind
      case Data => 0
      case EndOfFile => 1
      case Other(code) => code
    }
  }

  type Ram = map<nat, char>

  const ADDRESSES := 0x1_0000_0000

  // ---------------------------------------------------------------- memory

  function Stored(ram: Ram, address: nat, data: string): Ram {
    if data == "" then ram
    else
      var n := |data| - 1;
      Stored(ram, address, data[..n])[(address + n) % ADDRESSES := data[n]]
  }

  /** The data records laid over the memory one after the other. */
  function Overlaid(ram: Ram, records: seq<Record>): Ram {
    if records == [] then ram
    else
      var last, before := records[|records| - 1], Overlaid(ram, records[..|records| - 1]);
      if last.kind.Data? then Stored(before, last.address, last.data) else before
  }

  /** What a data record has for an address, and what the last record that has it says. */
  function ByteFor(address: nat, data: string, a: nat): Option<char> {
    if data == "" then None
    else
      var n := |data| - 1;
      if (address + n) % ADDRESSES == a then Some(data[n]) else ByteFor(address, data[..n], a)
  }

  function LastFor(records: seq<Record>, a: nat): Option<char> {
    if records == [] then None
    else
      var last, before := records[|records| - 1], records[..|records| - 1];
      if last.kind.Data? && ByteFor(last.address, last.data, a).Some? then ByteFor(last.address, last.data, a)
      else LastFor(before, a)
  }

  function Peek(ram: Ram, a: nat): Option<char> {
    if a in ram then Some(ram[a]) else None
  }

  lemma {:induction false} StoredAt(ram: Ram, address: nat, data: string, a: nat)
    ensures Peek(Stored(ram, address, data), a)
            == if ByteFor(address, data, a).Some? then ByteFor(address, data, a) else Peek(ram, a)
  {
    if data != "" {
      StoredAt(ram, address, data[..|data| - 1], a);
    }
  }

  /** An address holds what the last data record that covers it says; the others are untouched. */
  lemma {:induction false} OverlaidAt(ram: Ram, records: seq<Record>, a: nat)
    ensures Peek(Overlaid(ram, records), a) == if LastFor(records, a).Some? then LastFor(records, a) else Peek(ram, a)
  {
    if records != [] {
      var last, before := records[|records| - 1], records[..|records| - 1];
      OverlaidAt(ram, before, a);
      if last.kind.Data? {
        StoredAt(Overlaid(ram, before), last.address, last.data, a);
      }
    }
  }

  /** Byte i of the record goes to address a. */
  ghost predicate Covers(record: Record, i: nat, a: nat) {
    record.kind.Data? && i < |record.data| && (record.address + i) % 0x1_0000_0000 == a
  }

  /** Byte i of the record is the last one of it that goes to a. */
  ghost predicate CoversLast(record: Record, i: nat, a: nat) {
    Covers(record, i, a) && forall l: nat | i < l :: !Covers(record, l, a)
  }

  ghost predicate Misses(record: Record, a: nat) {
    forall i: nat :: !Covers(record, i, a)
  }

  /** What is at a: the last byte that some record has for it, or what was there when none has one. */
  ghost predicate ComesFrom(ram: Ram, records: seq<Record>, a: nat, byte: Option<char>) {
    || (byte == Peek(ram, a) && forall k | 0 <= k < |records| :: Misses(records[k], a))
    || exists k, i: nat | 0 <= k < |records| && i < |records[k].data| ::
         && CoversLast(records[k], i, a) && byte == Some(records[k].data[i])
         && forall l | k < l < |records| :: Misses(records[l], a)
  }

  lemma {:induction false} ByteForIs(record: Record, n: nat, a: nat)
    requires record.kind.Data? && n <= |record.data|
    ensures match ByteFor(record.address, record.data[..n], a)
            case None => forall i: nat | i < n :: !Covers(record, i, a)
            case Some(c) => exists i: nat | i < n ::
                Covers(record, i, a) && c == record.data[i] && forall l: nat | i < l < n :: !Covers(record, l, a)
  {
    if n > 0 {
      assert record.data[..n][..n - 1] == record.data[..n - 1];
      ByteForIs(record, n - 1, a);
      if Covers(record, n - 1, a) {
        assert ByteFor(record.address, record.data[..n], a) == Some(record.data[n - 1]);
      }
    }
  }

  lemma ComesFromMore(ram: Ram, before: seq<Record>, last: Record, a: nat, was: Option<char>, now: Option<char>)
    requires ComesFrom(ram, before, a, was)
    requires (Misses(last, a) && now == was)
             || exists i: nat | i < |last.data| :: CoversLast(last, i, a) && now == Some(last.data[i])
    ensures ComesFrom(ram, before + [last], a, now)
  {
    hide CoversLast, Misses;
    var records := before + [last];
    if i: nat :| i < |last.data| && CoversLast(last, i, a) && now == Some(last.data[i]) {
      assert records[|before|] == last;
    } else if !(was == Peek(ram, a) && forall k | 0 <= k < |before| :: Misses(before[k], a)) {
      var k, i: nat :| 0 <= k < |before| && i < |before[k].data| && CoversLast(before[k], i, a)
                       && was == Some(before[k].data[i]) && forall l | k < l < |before| :: Misses(before[l], a);
      assert records[k] == before[k];
    }
  }

  /** What a record says for an address is what its last byte there says. */
  lemma ByteForLast(record: Record, a: nat)
    requires record.kind.Data?
    ensures match ByteFor(record.address, record.data, a)
            case None => Misses(record, a)
            case Some(c) => exists i: nat | i < |record.data| :: CoversLast(record, i, a) && c == record.data[i]
  {
    ByteForIs(record, |record.data|, a);
    assert record.data[..|record.data|] == record.data;
    hide ByteFor;
    if ByteFor(record.address, record.data, a).Some? {
      var i: nat :| i < |record.data| && Covers(record, i, a)
                    && ByteFor(record.address, record.data, a).value == record.data[i]
                    && forall l: nat | i < l < |record.data| :: !Covers(record, l, a);
      assert CoversLast(record, i, a);
    }
  }

  /** Every address holds what the records say, the last of them that has a byte for it. */
  lemma {:induction false} OverlaidComesFrom(ram: Ram, records: seq<Record>, a: nat)
    ensures ComesFrom(ram, records, a, Peek(Overlaid(ram, records), a))
  {
    if records == [] {
      return;
    }
    var n := |records| - 1;
    var last, before := records[n], records[..n];
    OverlaidComesFrom(ram, before, a);
    StoredAt(Overlaid(ram, before), last.address, last.data, a);
    if last.kind.Data? {
      ByteForLast(last, a);
    } else {
      assert Misses(last, a);
    }
    hide Covers, CoversLast, Misses, ComesFrom, Stored, ByteFor, Peek;
    ComesFromMore(ram, before, last, a, Peek(Overlaid(ram, before), a), Peek(Overlaid(ram, records), a));
    assert before + [last] == records;
  }

  lemma NoErrorsStep(records: seq<Record>, i: nat)
    requires i < |records|
    ensures NoErrors(records[..i + 1]) <==> NoErrors(records[..i]) && !records[i].checksumError
    ensures records[i].checksumError ==> !NoErrors(records)
  {
    assert NoErrors(records[..i + 1]) ==> !records[..i + 1][i].checksumError;
  }

  lemma OneMore(a: seq<Record>, b: seq<Record>, i: nat)
    requires i < |b|
    ensures a + b[..i] + [b[i]] == a + b[..i + 1] && a <= a + b[..i] <= a + b[..i + 1] <= a + b
  {
  }

  lemma OverlaidSnoc(ram: Ram, records: seq<Record>, last: Record)
    ensures Overlaid(ram, records + [last])
            == if last.kind.Data? then Stored(Overlaid(ram, records), last.address, last.data)
              else Overlaid(ram, records)
  {
    assert (records + [last])[..|records|] == records;
  }

  predicate HasEof(records: seq<Record>) {
    exists i :: 0 <= i < |records| && records[i].kind.EndOfFile?
  }

  lemma ErrorsJoin(a: seq<Record>, b: seq<Record>)
    ensures NoErrors(a + b) ==> NoErrors(a) && NoErrors(b)
  {
    if NoErrors(a + b) {
      forall i | 0 <= i < |b| ensures !b[i].checksumError {
        assert (a + b)[|a| + i] == b[i];
      }
      forall i | 0 <= i < |a| ensures !a[i].checksumError {
        assert (a + b)[i] == a[i];
      }
    }
  }

  lemma ReportsConcat(a: seq<Record>, b: seq<Record>)
    ensures HasEof(a) ==> HasEof(a + b)
    ensures NoErrors(a) && NoErrors(b) ==> NoErrors(a + b)
  {
    if i :| 0 <= i < |a| && a[i].kind.EndOfFile? {
      assert (a + b)[i].kind.EndOfFile?;
    }
  }

  predicate NoErrors(records: seq<Record>) {
    forall i :: 0 <= i < |records| ==> !records[i].checksumError
  }

  // ---------------------------------------------------------------- text

  /** Text that neither ends a C string nor starts or stops the host. */
  predicate Plain(s: string) {
    NUL !in s && XON !in s && XOFF !in s
  }

  function Hex(n: nat, width: nat): (s: string)
    ensures Plain(s)
  {
    if width == 0 then "" else Hex(n / 16, width - 1) + [Digit(n % 16)]
  }

  function Decimal(n: nat): (s: string)
    ensures Plain(s)
  {
    if n < 10 then [Digit(n)] else Decimal(n / 10) + [Digit(n % 10)]
  }

  /** The width digits of n, highest first. */
  lemma {:induction false} HexSpells(n: nat, width: nat)
    ensures |Hex(n, width)| == width && SpellsNumber(Hex(n, width), n, 16)
  {
    if width > 0 {
      HexSpells(n / 16, width - 1);
      SpellsMore(Hex(n / 16, width - 1), n, 16);
    }
  }

  /** All digits of n, highest first, and no zero in front. */
  ghost predicate InDecimal(s: string, n: nat) {
    SpellsNumber(s, n, 10) && 0 < |s| && n < Pow(10, |s|) && (|s| > 1 ==> s[0] != '0')
  }

  lemma {:induction false} DecimalSpells(n: nat)
    ensures InDecimal(Decimal(n), n)
  {
    if n >= 10 {
      DecimalSpells(n / 10);
      var s := Decimal(n / 10);
      SpellsMore(s, n, 10);
      assert Pow(10, |s| + 1) == 10 * Pow(10, |s|);
      if |s| == 1 {
        assert s[0] == Digit(n / 10 / Pow(10, 0) % 10);
      }
    } else {
      assert Pow(10, 1) == 10 * Pow(10, 0);
    }
  }

  lemma SpellsMore(s: string, n: nat, base: nat)
    requires 2 <= base <= 16 && SpellsNumber(s, n / base, base)
    ensures SpellsNumber(s + [Digit(n % base)], n, base)
  {
    var more := s + [Digit(n % base)];
    forall j | 0 <= j < |more| ensures more[j] == Digit(n / Pow(base, |more| - 1 - j) % base) {
      if j < |s| {
        QuotientTwice(n, base, Pow(base, |s| - 1 - j));
      }
    }
  }

  /** The bytes strlen counts. */
  function UpToNul(s: string): string {
    if s == "" || s[0] == NUL then "" else [s[0]] + UpToNul(s[1..])
  }

  lemma {:induction false} UpToNulStops(s: string, rest: string)
    requires rest != "" && rest[0] == NUL
    ensures UpToNul(s + rest) == UpToNul(s)
  {
    if s == "" {
      assert s + rest == rest;
    } else {
      assert (s + rest)[1..] == s[1..] + rest;
      UpToNulStops(s[1..], rest);
    }
  }

  /** Everything before the first NUL. */
  lemma {:induction false} UpToNulIs(s: string)
    ensures var text := UpToNul(s);
            text <= s && '\U{0}' !in text && (|text| < |s| ==> s[|text|] == '\U{0}')
  {
    if s != "" && s[0] != NUL {
      UpToNulIs(s[1..]);
    }
  }

  lemma {:induction false} UpToNulWhole(s: string)
    requires NUL !in s
    ensures UpToNul(s) == s
  {
    if s != "" {
      UpToNulWhole(s[1..]);
    }
  }

  const CRLF := "\r\n"

  // ---------------------------------------------------------------- what is printed

  /** What a record makes the callback print when so many dots are on the line, and the dots then. */
  function RecordText(dots: nat, record: Record): string {
    match record.kind
    case Data => (if dots == 0 then Hex(record.address, 8) + ": " else "") + "." + if dots + 1 >= 40 then "\n" else ""
    case EndOfFile => (if dots != 0 then "\n" else "") + ("EOF" + CRLF)
    case Other(_) => ""
  }

  function DotsAfter(dots: nat, record: Record): nat {
    match record.kind
    case Data => if dots + 1 >= 40 then 0 else dots + 1
    case EndOfFile => 0
    case Other(_) => dots
  }

  function RecordTexts(dots: nat, records: seq<Record>): string {
    if records == [] then ""
    else
      var n := |records| - 1;
      RecordTexts(dots, records[..n]) + RecordText(Dots(dots, records[..n]), records[n])
  }

  function Dots(dots: nat, records: seq<Record>): nat {
    if records == [] then dots else DotsAfter(Dots(dots, records[..|records| - 1]), records[|records| - 1])
  }

  /** What a data record for the address prints with so many dots on the line: at the start of a line
      its eight digits and a colon, then a dot, and after the fortieth dot the end of the line. */
  ghost predicate DataText(text: string, dots: nat, address: nat) {
    var start := if dots == 0 then 10 else 0;
    && |text| == start + (if dots < 39 then 1 else 2)
    && (dots == 0 ==> SpellsNumber(text[..8], address, 16) && text[8] == ':' && text[9] == ' ')
    && text[start] == '.' && (dots >= 39 ==> text[start + 1] == '\n')
  }

  lemma {:induction false} TextsPlain(dots: nat, records: seq<Record>)
    ensures Plain(RecordTexts(dots, records))
  {
    if records != [] {
      hide RecordText, Dots;
      var n := |records| - 1;
      TextsPlain(dots, records[..n]);
      TextPlain(Dots(dots, records[..n]), records[n]);
    }
  }

  lemma TextPlain(dots: nat, record: Record)
    ensures Plain(RecordText(dots, record))
  {
    hide Hex;
    assert Plain(": ") && Plain(".") && Plain("\n") && Plain("EOF" + CRLF) && Plain("");
    PlainConcat(Hex(record.address, 8), ": ");
    PlainConcat(if dots == 0 then Hex(record.address, 8) + ": " else "", ".");
    hide Plain;
    if record.kind.Data? {
      var start := if dots == 0 then Hex(record.address, 8) + ": " else "";
      PlainConcat(start + ".", if dots + 1 >= 40 then "\n" else "");
    } else if record.kind.EndOfFile? {
      PlainConcat(if dots != 0 then "\n" else "", "EOF" + CRLF);
    }
  }

  lemma PlainConcat(a: string, b: string)
    ensures Plain(a) && Plain(b) ==> Plain(a + b)
  {
  }

  lemma RecordTextIs(dots: nat, record: Record)
    ensures record.kind.Data? ==>
              DataText(RecordText(dots, record), dots, record.address)
              && DotsAfter(dots, record) == if dots < 39 then dots + 1 else 0
    ensures record.kind.EndOfFile? ==>
              RecordText(dots, record) == (if dots == 0 then "EOF\r\n" else "\nEOF\r\n")
              && DotsAfter(dots, record) == 0
    ensures record.kind.Other? ==> RecordText(dots, record) == "" && DotsAfter(dots, record) == dots
  {
    hide Hex;
    HexSpells(record.address, 8);
    if record.kind.Data? && dots == 0 {
      assert RecordText(dots, record)[..8] == Hex(record.address, 8);
    }
  }

  /** The message on a checksum error: the line's number and the record's type in decimal. */
  ghost predicate ErrorMessage(text: string, lineNo: nat, code: nat) {
    exists line: string, kind: string ::
      && text == "ihex err: line " + line + " type: " + kind + "\n\r\n"
      && InDecimal(line, lineNo) && InDecimal(kind, code)
  }

  lemma ErrorTextIs(lineNo: nat, code: nat)
    ensures ErrorMessage(ErrorText(lineNo, code), lineNo, code)
  {
    var line, kind := Decimal(lineNo), Decimal(code);
    DecimalSpells(lineNo);
    DecimalSpells(code);
    hide Decimal, SpellsNumber;
    assert "\n" + CRLF == "\n\r\n";
    ConcatAssoc("ihex err: line " + line + " type: " + kind, "\n", CRLF);
    assert InDecimal(line, lineNo) && InDecimal(kind, code);
  }

  lemma TextsStep(dots: nat, records: seq<Record>, i: nat)
    requires i < |records|
    ensures RecordTexts(dots, records[..i + 1])
            == RecordTexts(dots, records[..i]) + RecordText(Dots(dots, records[..i]), records[i])
    ensures Dots(dots, records[..i + 1]) == DotsAfter(Dots(dots, records[..i]), records[i])
    ensures RecordTexts(dots, records[..0]) == "" && Dots(dots, records[..0]) == dots
  {
    hide RecordText, DotsAfter;
    assert records[..i + 1][..i] == records[..i];
  }

  lemma {:induction false} TextsGrow(dots: nat, records: seq<Record>, i: nat)
    requires i <= |records|
    ensures |RecordTexts(dots, records[..i])| <= |RecordTexts(dots, records)|
    decreases |records|
  {
    if i == |records| {
      assert records[..i] == records;
    } else {
      var n := |records| - 1;
      assert records[..n][..i] == records[..i];
      TextsGrow(dots, records[..n], i);
    }
  }

  lemma NothingReported(dots: nat)
    ensures RecordTexts(dots, []) == "" && Dots(dots, []) == dots && NoErrors([])
  {
  }

  function ErrorText(lineNo: nat, code: nat): string {
    "ihex err: line " + Decimal(lineNo) + " type: " + Decimal(code) + "\n" + CRLF
  }
}
