/** The uploader on the SERV core: it prompts the host, takes an Intel HEX stream line by line
    under XON/XOFF, stores the decoded bytes at their own addresses, and releases the second core.
    The decoder of HEX lines is any function from the lines so far to records. */
module Uploader {
  import opened Common
  import opened PolledUart
  import opened IhexRecords
  import opened UploadHost

  const MUX_TO_NOELV := 1
  const NOELV_RUN := 2
  const REC_DUMP := 4

  // ---------------------------------------------------------------- the loader

  class Loader {
    const uart: UartBuf
    const line: array<char>
    /** ihex_read_bytes and ihex_end_read: the records the last of the lines so far gives rise to. */
    const decode: seq<string> -> seq<Record>
    const decodeEnd: seq<string> -> seq<Record>
    ghost const ram0: Ram
    var gEof: bool
    var lineNo: nat
    var dotCount: nat
    var ram: Ram
    /** What was written to the register that releases the second core. */
    var percontrol: seq<nat>
    /** The decoder's state: the lines passed to it. */
    var fed: seq<string>
    /** The records whose callback has taken effect. */
    ghost var reported: seq<Record>

    constructor (uart: UartBuf, ram: Ram, decode: seq<string> -> seq<Record>, decodeEnd: seq<string> -> seq<Record>)
      requires uart.Valid()
      ensures this.uart == uart && this.ram0 == ram && this.decode == decode && this.decodeEnd == decodeEnd
      ensures Valid() && fresh(line) && line.Length == 256 && percontrol == [] && fed == [] && reported == []
      ensures !gEof && lineNo == 1 && dotCount == 0
    {
      this.uart, this.ram, this.ram0, this.decode, this.decodeEnd := uart, ram, ram, decode, decodeEnd;
      line := new char[RING];
      gEof, lineNo, dotCount, percontrol, fed, reported := false, 1, 0, [], [], [];
    }

    ghost predicate Consistent()
      reads this`ram, this`gEof, this`reported
    {
      ram == Overlaid(ram0, reported) && (gEof <==> HasEof(reported))
    }

    ghost predicate Valid()
      reads this`ram, this`gEof, this`reported, uart, uart.buf, uart.dev
    {
      uart.Valid() && line.Length == RING && line != uart.buf && Consistent()
    }

    /** With a host that behaves: k of its lines are taken, and the prompt and some XONs, no more
        than k, are out; so at most one line is on its way and the ring has room for it. */
    ghost predicate InStep(k: nat, xons: nat)
      reads uart, uart.dev
    {
      Behaved(uart.dev.lines, uart.dev.gated) ==>
        && k <= |uart.dev.lines| && uart.overflows == 0 && uart.delivered == Joined(uart.dev.lines[..k])
        && Prompted(uart.dev.written) && Xons(uart.dev.written) == xons <= k
    }

    /** All records due for the lines passed to the decoder. */
    function Emitted(lines: seq<string>): seq<Record> {
      if lines == [] then [] else Emitted(lines[..|lines| - 1]) + decode(lines)
    }

    lemma StepFits(k: nat, xons: nat)
      requires uart.Valid() && InStep(k, xons) && Behaved(uart.dev.lines, uart.dev.gated)
      ensures uart.Fits()
    {
      CreditFits(k, uart.dev.written);
    }

    /** One credit more than lines taken is at most one line. */
    lemma CreditFits(k: nat, output: string)
      requires Behaved(uart.dev.lines, uart.dev.gated) && k <= |uart.dev.lines| && Credits(output) <= k + 1
      ensures uart.dev.LimitFor(output) <= |Joined(uart.dev.lines[..k])| + (RING - 1)
    {
      var lines := uart.dev.lines;
      var i := Min(Credits(output), |lines|);
      if i <= k {
        JoinedPrefix(lines, i, k);
      } else {
        assert lines[..k + 1][..k] == lines[..k];
      }
    }

    /** Plain text on its way to the host. */
    method Say(s: string, ghost k: nat, ghost xons: nat) returns (going: bool)
      requires Valid() && Plain(s) && InStep(k, xons)
      modifies uart`wr, uart`overflows, uart.buf, uart.dev`at, uart.dev`sent, uart.dev`rx, uart.dev`tx, uart.dev`written
      ensures Valid() && (going ==> InStep(k, xons))
      ensures old(uart.dev.at) <= uart.dev.at && old(uart.dev.written) <= uart.dev.written
      ensures Behaved(uart.dev.lines, uart.dev.gated) ==> uart.overflows == 0
      ensures if going then uart.dev.written == old(uart.dev.written) + s else uart.dev.at == |uart.dev.script|
      ensures uart.dev.Eager() && old(uart.dev.at) + |s| <= |uart.dev.script| ==>
                going && uart.dev.at <= old(uart.dev.at) + |s|
    {
      hide Joined, Balanced, RingContents, UpToNul, Prompted, Xons;
      ghost var before := uart.dev.written;
      if Behaved(uart.dev.lines, uart.dev.gated) {
        StepFits(k, xons);
        CreditsAppend(before, s);
        CreditFits(k, before + s);
      }
      going := uart.Print(s);
    }

    /** XON: the host may send one line more. */
    method SendXon(ghost k: nat, ghost xons: nat) returns (going: bool)
      requires Valid() && InStep(k, xons) && xons < k
      modifies uart`wr, uart`overflows, uart.buf, uart.dev`at, uart.dev`sent, uart.dev`rx, uart.dev`tx, uart.dev`written
      ensures if going then uart.dev.written == old(uart.dev.written) + ['\U{11}']
              else uart.dev.at == |uart.dev.script|
      ensures Valid() && (going ==> InStep(k, xons + 1))
      ensures old(uart.dev.at) <= uart.dev.at && old(uart.dev.written) <= uart.dev.written
      ensures Behaved(uart.dev.lines, uart.dev.gated) ==> uart.overflows == 0
      ensures uart.dev.Eager() && old(uart.dev.at) + 1 <= |uart.dev.script| ==>
                going && uart.dev.at <= old(uart.dev.at) + 1
    {
      ghost var before := uart.dev.written;
      assert (before + [XON])[..|before|] == before;
      assert Xons(before + [XON]) == Xons(before) + 1;
      CreditsAppend(before, [XON]);
      hide Joined, Balanced, RingContents, UpToNul, Prompted, Xons;
      if Behaved(uart.dev.lines, uart.dev.gated) {
        StepFits(k, xons);
      }
      going := uart.Put(XON);
    }

    /** XOFF: nothing the host may take for credit. */
    method SendXoff(ghost k: nat, ghost xons: nat) returns (going: bool)
      requires Valid() && InStep(k, xons)
      modifies uart`wr, uart`overflows, uart.buf, uart.dev`at, uart.dev`sent, uart.dev`rx, uart.dev`tx, uart.dev`written
      ensures Valid() && (going ==> InStep(k, xons) && old(uart.dev.at) < uart.dev.at)
      ensures if going then uart.dev.written == old(uart.dev.written) + ['\U{13}']
              else uart.dev.at == |uart.dev.script|
      ensures Behaved(uart.dev.lines, uart.dev.gated) ==> uart.overflows == 0
      ensures uart.dev.Eager() && old(uart.dev.at) + 1 <= |uart.dev.script| ==>
                going && uart.dev.at <= old(uart.dev.at) + 1
    {
      ghost var before := uart.dev.written;
      assert (before + [XOFF])[..|before|] == before;
      XoffGivesNone(before);
      hide Joined, Balanced, RingContents, UpToNul, Prompted, Xons, Behaved, Overlaid, HasEof;
      if Behaved(uart.dev.lines, uart.dev.gated) {
        StepFits(k, xons);
      }
      going := uart.Put(XOFF);
    }

    lemma XoffGivesNone(before: string)
      ensures Xons(before + [XOFF]) == Xons(before) && (Prompted(before) ==> Prompted(before + [XOFF]))
    {
      assert XON !in [XOFF];
      CreditsAppend(before, [XOFF]);
    }

    /** A line of text and the CR LF that printme adds. */
    method SayLine(s: string, ghost k: nat, ghost xons: nat) returns (going: bool)
      requires Valid() && Plain(s) && InStep(k, xons)
      modifies uart`wr, uart`overflows, uart.buf, uart.dev`at, uart.dev`sent, uart.dev`rx, uart.dev`tx, uart.dev`written
      ensures Valid() && (going ==> InStep(k, xons))
      ensures old(uart.dev.at) <= uart.dev.at && old(uart.dev.written) <= uart.dev.written
      ensures Behaved(uart.dev.lines, uart.dev.gated) ==> uart.overflows == 0
      ensures if going then uart.dev.written == old(uart.dev.written) + (s + CRLF) else uart.dev.at == |uart.dev.script|
      ensures uart.dev.Eager() && old(uart.dev.at) + |s + CRLF| <= |uart.dev.script| ==>
                going && uart.dev.at <= old(uart.dev.at) + |s + CRLF|
    {
      assert Plain(CRLF);
      hide *;
      ConcatAssoc(uart.dev.written, s, CRLF);
      going := Say(s, k, xons);
      if going {
        going := Say(CRLF, k, xons);
      }
    }

    /** The bytes of a data record go to the addresses the record names. */
    method StoreBytes(record: Record)
      requires record.kind.Data? && Consistent()
      modifies this`ram, this`reported
      ensures Consistent() && reported == old(reported) + [record]
    {
      ghost var before := ram;
      for i := 0 to |record.data|
        invariant ram == Stored(before, record.address, record.data[..i]) && reported == old(reported)
      {
        assert record.data[..i + 1][..i] == record.data[..i];
        ram := ram[(record.address + i) % ADDRESSES := record.data[i]];
      }
      assert record.data[..|record.data|] == record.data;
      OverlaidSnoc(ram0, reported, record);
      HasEofSnoc(reported, record);
      hide HasEof;
      reported := reported + [record];
    }

    lemma HasEofSnoc(records: seq<Record>, record: Record)
      ensures HasEof(records + [record]) <==> HasEof(records) || record.kind.EndOfFile?
    {
      assert record.kind.EndOfFile? ==> (records + [record])[|records|].kind.EndOfFile?;
      if i :| 0 <= i < |records| && records[i].kind.EndOfFile? {
        assert (records + [record])[i].kind.EndOfFile?;
      }
    }

    /** Ends the line of dots, if one has begun. */
    method EndDots(ghost k: nat, ghost xons: nat) returns (going: bool)
      requires Valid() && InStep(k, xons)
      modifies this`dotCount
      modifies uart`wr, uart`overflows, uart.buf, uart.dev`at, uart.dev`sent, uart.dev`rx, uart.dev`tx, uart.dev`written
      ensures Valid() && (going ==> InStep(k, xons))
      ensures old(uart.dev.at) <= uart.dev.at && old(uart.dev.written) <= uart.dev.written
      ensures Behaved(uart.dev.lines, uart.dev.gated) ==> uart.overflows == 0
      ensures if going then dotCount == 0
              && uart.dev.written == old(uart.dev.written) + (if old(dotCount) != 0 then "\n" else "")
              else uart.dev.at == |uart.dev.script|
      ensures uart.dev.Eager() && old(uart.dev.at) + (if old(dotCount) != 0 then 1 else 0) <= |uart.dev.script| ==>
                going && uart.dev.at <= old(uart.dev.at) + (if old(dotCount) != 0 then 1 else 0)
    {
      going := true;
      assert uart.dev.written + "" == uart.dev.written;
      if dotCount != 0 {
        going := Say("\n", k, xons);
        if going {
          dotCount := 0;
        }
      }
    }

    /** The text of a data record in the order in which it is printed. */
    lemma DataTextJoined(before: string, dots: nat, record: Record)
      requires record.kind.Data?
      ensures before + RecordText(dots, record)
              == before + (if dots == 0 then Hex(record.address, 8) + ": " else "") + "."
                + (if dots + 1 >= 40 then "\n" else "")
      ensures before + "" == before && before + "." + "" == before + "."
      ensures before + (Hex(record.address, 8) + ": ") + "." + "" == before + (Hex(record.address, 8) + ": ") + "."
    {
      var start := if dots == 0 then Hex(record.address, 8) + ": " else "";
      var end := if dots + 1 >= 40 then "\n" else "";
      assert RecordText(dots, record) == start + "." + end;
      ConcatAssoc(before, start + ".", end);
      ConcatAssoc(before, start, ".");
    }

    lemma TailIs(before: string, text: string)
      ensures (before + text)[|before|..] == text
    {
    }

    method DataRecord(record: Record, ghost k: nat, ghost xons: nat) returns (going: bool)
      requires Valid() && InStep(k, xons) && record.kind.Data?
      modifies this`dotCount, this`ram, this`reported
      modifies uart`wr, uart`overflows, uart.buf, uart.dev`at, uart.dev`sent, uart.dev`rx, uart.dev`tx, uart.dev`written
      ensures Valid() && (going ==> InStep(k, xons))
      ensures old(uart.dev.at) <= uart.dev.at && old(uart.dev.written) <= uart.dev.written
      ensures Behaved(uart.dev.lines, uart.dev.gated) ==> uart.overflows == 0
      ensures reported == old(reported) + [record] || (!going && reported == old(reported))
      ensures if going then uart.dev.written == old(uart.dev.written) + RecordText(old(dotCount), record)
                            && dotCount == DotsAfter(old(dotCount), record) && reported == old(reported) + [record]
              else uart.dev.at == |uart.dev.script|
      ensures going ==> DataText(uart.dev.written[|old(uart.dev.written)|..], old(dotCount), record.address)
      ensures going ==> dotCount == if old(dotCount) < 39 then old(dotCount) + 1 else 0
      ensures uart.dev.Eager() && old(uart.dev.at) + |RecordText(old(dotCount), record)| <= |uart.dev.script| ==>
                going && uart.dev.at <= old(uart.dev.at) + |RecordText(old(dotCount), record)|
    {
      hide Joined, Balanced, RingContents, UpToNul, Prompted, Xons, HasEof, InStep, Overlaid, Stored, Hex, Decimal,
        Behaved, DataText;
      ghost var before, dots := uart.dev.written, dotCount;
      RecordTextIs(dots, record);
      TailIs(before, RecordText(dots, record));
      DataTextJoined(before, dots, record);
      going := true;
      if dotCount == 0 {
        going := Say(Hex(record.address, 8) + ": ", k, xons);
        if !going { return; }
      }
      StoreBytes(record);
      going := Say(".", k, xons);
      if !going { return; }
      dotCount := dotCount + 1;
      if dotCount >= 40 {
        going := EndDots(k, xons);
      }
    }

    method EofRecord(record: Record, ghost k: nat, ghost xons: nat) returns (going: bool)
      requires Valid() && InStep(k, xons) && record.kind.EndOfFile?
      modifies this`dotCount, this`gEof, this`reported
      modifies uart`wr, uart`overflows, uart.buf, uart.dev`at, uart.dev`sent, uart.dev`rx, uart.dev`tx, uart.dev`written
      ensures Valid() && (going ==> InStep(k, xons))
      ensures old(uart.dev.at) <= uart.dev.at && old(uart.dev.written) <= uart.dev.written
      ensures Behaved(uart.dev.lines, uart.dev.gated) ==> uart.overflows == 0
      ensures reported == old(reported) + [record] || (!going && reported == old(reported))
      ensures if going then uart.dev.written == old(uart.dev.written) + RecordText(old(dotCount), record)
                            && dotCount == DotsAfter(old(dotCount), record) && reported == old(reported) + [record]
              else uart.dev.at == |uart.dev.script|
      ensures going ==> dotCount == 0 && uart.dev.written == old(uart.dev.written)
                                         + if old(dotCount) == 0 then "EOF\r\n" else "\nEOF\r\n"
      ensures uart.dev.Eager() && old(uart.dev.at) + |RecordText(old(dotCount), record)| <= |uart.dev.script| ==>
                going && uart.dev.at <= old(uart.dev.at) + |RecordText(old(dotCount), record)|
    {
      hide Joined, Balanced, RingContents, UpToNul, Prompted, Xons, HasEof, InStep, Overlaid, Stored, Hex, Decimal,
        Behaved;
      RecordTextIs(dotCount, record);
      ConcatAssoc(uart.dev.written, if dotCount != 0 then "\n" else "", "EOF" + CRLF);
      going := EndDots(k, xons);
      if !going { return; }
      going := SayLine("EOF", k, xons);
      if !going { return; }
      gEof := true;
      HasEofSnoc(reported, record);
      OverlaidSnoc(ram0, reported, record);
      reported := reported + [record];
    }

    lemma NoOverflow(k: nat, xons: nat)
      requires InStep(k, xons)
      ensures Behaved(uart.dev.lines, uart.dev.gated) ==> uart.overflows == 0
    {
    }

    method SayError(code: nat, ghost k: nat, ghost xons: nat)
      requires Valid() && InStep(k, xons)
      modifies uart`wr, uart`overflows, uart.buf, uart.dev`at, uart.dev`sent, uart.dev`rx, uart.dev`tx, uart.dev`written
      ensures Valid()
      ensures old(uart.dev.at) <= uart.dev.at && old(uart.dev.written) <= uart.dev.written
      ensures Behaved(uart.dev.lines, uart.dev.gated) ==> uart.overflows == 0
      ensures uart.dev.written == old(uart.dev.written) + ErrorText(lineNo, code) || uart.dev.at == |uart.dev.script|
    {
      hide Decimal, InStep, Behaved, Joined, Balanced;
      var going := SayLine("ihex err: line " + Decimal(lineNo) + " type: " + Decimal(code) + "\n", k, xons);
    }

    /** Other records leave no trace. */
    method OtherRecord(record: Record, ghost k: nat, ghost xons: nat)
      requires Valid() && InStep(k, xons) && record.kind.Other?
      modifies this`reported
      ensures Valid() && reported == old(reported) + [record]
      ensures Behaved(uart.dev.lines, uart.dev.gated) ==> uart.overflows == 0
      ensures uart.dev.written == old(uart.dev.written) + RecordText(dotCount, record)
      ensures dotCount == DotsAfter(dotCount, record)
    {
      hide Joined, Balanced, RingContents, Prompted, Xons, HasEof, Overlaid;
      assert uart.dev.written + "" == uart.dev.written;
      HasEofSnoc(reported, record);
      OverlaidSnoc(ram0, reported, record);
      reported := reported + [record];
    }

    /** The callback for one record. It comes back unless the record has a checksum error (then the
        program stops for good, its bytes already stored) or the run ends first. */
    method IhexDataRead(record: Record, ghost k: nat, ghost xons: nat) returns (going: bool)
      requires Valid() && InStep(k, xons)
      modifies this`gEof, this`lineNo, this`dotCount, this`ram, this`reported
      modifies uart`wr, uart`overflows, uart.buf, uart.dev`at, uart.dev`sent, uart.dev`rx, uart.dev`tx, uart.dev`written
      ensures Valid() && (going ==> InStep(k, xons))
      ensures old(uart.dev.at) <= uart.dev.at && old(uart.dev.written) <= uart.dev.written
      ensures Behaved(uart.dev.lines, uart.dev.gated) ==> uart.overflows == 0
      ensures reported == old(reported) + [record] || (!going && reported == old(reported))
      ensures going ==> !record.checksumError && lineNo == old(lineNo) + 1
      ensures going ==> uart.dev.written == old(uart.dev.written) + RecordText(old(dotCount), record)
                        && dotCount == DotsAfter(old(dotCount), record) && reported == old(reported) + [record]
      ensures !going && uart.dev.at < |uart.dev.script| ==>
                record.checksumError && reported == old(reported) + [record]
                && uart.dev.written == old(uart.dev.written) + (RecordText(old(dotCount), record)
                                                                + ErrorText(old(lineNo), record.TypeCode()))
      ensures uart.dev.Eager() && !record.checksumError
              && old(uart.dev.at) + |RecordText(old(dotCount), record)| <= |uart.dev.script| ==>
                going && uart.dev.at <= old(uart.dev.at) + |RecordText(old(dotCount), record)|
    {
      hide *;
      if record.kind.Data? {
        going := DataRecord(record, k, xons);
      } else if record.kind.EndOfFile? {
        going := EofRecord(record, k, xons);
      } else {
        OtherRecord(record, k, xons);
        going := true;
      }
      if !going { return; }
      if record.checksumError {
        ConcatAssoc(old(uart.dev.written), RecordText(old(dotCount), record), ErrorText(lineNo, record.TypeCode()));
        SayError(record.TypeCode(), k, xons);
        return false;
      }
      lineNo := lineNo + 1;
    }

    /** The program has stopped at a record with a checksum error: its last words name the number of
        the record, counted from 1, and its type. */
    ghost predicate StoppedAtError()
      reads this`reported, uart.dev`written
    {
      && reported != [] && reported[|reported| - 1].checksumError
      && exists before: string, text: string ::
           uart.dev.written == before + text
           && ErrorMessage(text, |reported|, reported[|reported| - 1].TypeCode())
    }

    lemma StopsAtError(before: string, dots: nat, record: Record)
      requires reported != [] && reported[|reported| - 1] == record && record.checksumError
      requires uart.dev.written == before + (RecordText(dots, record) + ErrorText(|reported|, record.TypeCode()))
      ensures StoppedAtError()
    {
      hide RecordText, ErrorText, ErrorMessage;
      ErrorTextIs(|reported|, record.TypeCode());
      ConcatAssoc(before, RecordText(dots, record), ErrorText(|reported|, record.TypeCode()));
    }

    /** The callbacks for several records, in order. */
    method Report(records: seq<Record>, ghost k: nat, ghost xons: nat) returns (going: bool)
      requires Valid() && InStep(k, xons) && lineNo == |reported| + 1
      modifies this`gEof, this`lineNo, this`dotCount, this`ram, this`reported
      modifies uart`wr, uart`overflows, uart.buf, uart.dev`at, uart.dev`sent, uart.dev`rx, uart.dev`tx, uart.dev`written
      ensures Valid() && (going ==> InStep(k, xons))
      ensures old(uart.dev.at) <= uart.dev.at && old(uart.dev.written) <= uart.dev.written
      ensures Behaved(uart.dev.lines, uart.dev.gated) ==> uart.overflows == 0
      ensures old(reported) <= reported <= old(reported) + records
      ensures going ==> reported == old(reported) + records && NoErrors(records)
      ensures going ==> uart.dev.written == old(uart.dev.written) + RecordTexts(old(dotCount), records)
                        && dotCount == Dots(old(dotCount), records)
      ensures going ==> lineNo == |reported| + 1
      ensures !going && uart.dev.at < |uart.dev.script| ==> !NoErrors(records) && StoppedAtError()
      ensures uart.dev.Eager() && NoErrors(records)
              && old(uart.dev.at) + |RecordTexts(old(dotCount), records)| <= |uart.dev.script| ==>
                going && uart.dev.at <= old(uart.dev.at) + |RecordTexts(old(dotCount), records)|
    {
      hide *;
      assert records[..0] == [] && reported + [] == reported && uart.dev.written + "" == uart.dev.written;
      NothingReported(dotCount);
      going := true;
      var i := 0;
      while i < |records|
        invariant Valid() && 0 <= i <= |records| && InStep(k, xons)
        invariant old(uart.dev.at) <= uart.dev.at && old(uart.dev.written) <= uart.dev.written
        invariant uart.dev.written == old(uart.dev.written) + RecordTexts(old(dotCount), records[..i])
        invariant dotCount == Dots(old(dotCount), records[..i])
        invariant uart.dev.Eager() && NoErrors(records)
                  && old(uart.dev.at) + |RecordTexts(old(dotCount), records)| <= |uart.dev.script| ==>
                    uart.dev.at <= old(uart.dev.at) + |RecordTexts(old(dotCount), records[..i])|
        invariant reported == old(reported) + records[..i] && NoErrors(records[..i])
        invariant lineNo == |reported| + 1
      {
        ghost var before, dotCountBefore := uart.dev.written, dotCount;
        TextsStep(old(dotCount), records, i);
        ConcatAssoc(old(uart.dev.written), RecordTexts(old(dotCount), records[..i]), RecordText(dotCount, records[i]));
        OneMore(old(reported), records, i);
        NoErrorsStep(records, i);
        TextsGrow(old(dotCount), records, i + 1);
        going := IhexDataRead(records[i], k, xons);
        if !going {
          if uart.dev.at < |uart.dev.script| {
            StopsAtError(before, dotCountBefore, records[i]);
          }
          return;
        }
        i := i + 1;
      }
      assert records[..i] == records;
      NoOverflow(k, xons);
    }

    /** After the prompt and k XONs the host's line k is due. */
    lemma LineIsDue(k: nat)
      requires Valid() && InStep(k, k) && Behaved(uart.dev.lines, uart.dev.gated) && k < |uart.dev.lines|
      requires uart.dev.Eager() && uart.dev.at + |uart.dev.lines[k]| <= |uart.dev.script|
      ensures uart.IsDue(|uart.dev.lines[k]|) && |uart.dev.lines[k]| < RING
    {
      hide Joined, Balanced, RingContents, Prompted, Xons;
      var lines := uart.dev.lines;
      JoinedAround(lines, k);
      assert uart.dev.Limit() == |Joined(lines[..k + 1])|;
      var n := |Joined(lines[..k])| + |lines[k]|;
      assert Joined(lines) == Joined(lines[..k]) + (lines[k] + Joined(lines[k + 1..]));
      assert Joined(lines)[n - 1] == lines[k][|lines[k]| - 1];
    }

    /** The line reader and the length of what it left, as the main loop uses them. */
    method TakeLine(ghost k: nat, ghost xons: nat) returns (going: bool, ok: bool, text: string)
      requires Valid() && InStep(k, xons)
      modifies line, uart`rd, uart`delivered, uart.dev`at, uart.dev`sent, uart.dev`rx, uart.dev`tx
      ensures Valid() && uart.overflows == old(uart.overflows) && old(uart.dev.at) <= uart.dev.at
      ensures going ==> InStep(k + 1, xons)
      ensures going && Behaved(uart.dev.lines, uart.dev.gated) ==>
                ok && k < |uart.dev.lines| && text == UpToNul(uart.dev.lines[k])
      ensures !going ==> uart.dev.at == |uart.dev.script|
      ensures Behaved(uart.dev.lines, uart.dev.gated) && k == xons && k < |uart.dev.lines| && uart.dev.Eager()
              && old(uart.dev.at) + |uart.dev.lines[k]| <= |uart.dev.script| ==>
                going && uart.dev.at <= old(uart.dev.at) + |uart.dev.lines[k]|
    {
      assert Behaved(uart.dev.lines, uart.dev.gated) ==> uart.dev.gated;
      hide Balanced, RingContents, Prompted, Xons, Credits, Behaved, Overlaid, HasEof;
      ghost var got;
      if Behaved(uart.dev.lines, uart.dev.gated) {
        StepFits(k, xons);
      }
      ghost var due := 0;
      if Behaved(uart.dev.lines, uart.dev.gated) && k == xons && k < |uart.dev.lines| && uart.dev.Eager()
         && uart.dev.at + |uart.dev.lines[k]| <= |uart.dev.script| {
        LineIsDue(k);
        due := |uart.dev.lines[k]|;
      }
      going, ok, got := uart.Getline(line, line.Length, due);
      text := UpToNul(line[..]);
      if going && Behaved(uart.dev.lines, uart.dev.gated) {
        DeliveredPrefix();
        TakesNextLine(uart.dev.lines, k, got);
        assert line[..] == got + line[|got|..];
        UpToNulStops(got, line[|got|..]);
      }
    }

    lemma DeliveredPrefix()
      requires uart.Valid() && uart.overflows == 0
      ensures uart.delivered <= uart.dev.Stream()
    {
      assert uart.dev.Stream() == uart.dev.Stream()[..uart.dev.sent] + uart.dev.Stream()[uart.dev.sent..];
      assert uart.delivered + uart.Contents() + uart.dev.rx == uart.delivered + (uart.Contents() + uart.dev.rx);
    }

    /** What holds when the second core is released: an end of file was reported, no record had a
        checksum error, every record due was reported, nothing is left to transmit. */
    ghost predicate Releasable()
      reads this, uart.dev
    {
      && reported == Emitted(fed) + decodeEnd(fed) && ram == Overlaid(ram0, reported)
      && HasEof(reported) && NoErrors(reported) && uart.dev.tx == ""
    }

    method WritePercontrol(value: nat)
      requires Releasable()
      modifies this`percontrol
      ensures Releasable() && percontrol == old(percontrol) + [value]
    {
      percontrol := percontrol + [value];
    }

    /** With a host that behaves, the lines passed to the decoder are the host's first ones. */
    ghost predicate FedInOrder()
      reads this`fed
    {
      Behaved(uart.dev.lines, uart.dev.gated) ==>
        |fed| <= |uart.dev.lines| && fed == Texts(uart.dev.lines[..|fed|])
    }

    ghost predicate InOrder()
      reads this`fed, uart`overflows
    {
      FedInOrder() && (Behaved(uart.dev.lines, uart.dev.gated) ==> uart.overflows == 0)
    }

    lemma OrderKept()
      requires FedInOrder() && (Behaved(uart.dev.lines, uart.dev.gated) ==> uart.overflows == 0)
      ensures InOrder()
    {
    }

    lemma OrderMore(before: seq<string>, text: string)
      requires fed == before + [text]
      requires Behaved(uart.dev.lines, uart.dev.gated) ==>
                 && |before| < |uart.dev.lines| && text == UpToNul(uart.dev.lines[|before|])
                 && before == Texts(uart.dev.lines[..|before|])
      ensures FedInOrder()
    {
      hide UpToNul, Behaved;
      if Behaved(uart.dev.lines, uart.dev.gated) {
        var k := |before|;
        assert uart.dev.lines[..k + 1] == uart.dev.lines[..k] + [uart.dev.lines[k]];
      }
    }

    /** Until the whole greeting is out the host has no credit or, from the colon on, one. */
    lemma StageFits(stage: string, rest: string)
      requires Behaved(uart.dev.lines, uart.dev.gated) && stage + rest == Greeting()
      ensures uart.dev.LimitFor(stage) <= RING - 1
    {
      CreditsAppend("", Greeting());
      GreetingPieces();
      assert "" + Greeting() == Greeting() && uart.dev.lines[..0] == [];
      CreditFits(0, Greeting());
      uart.dev.LimitGrows(stage, rest);
    }

    lemma GreetingPrompts()
      ensures Prompted(Greeting()) && Xons(Greeting()) == 0
    {
      GreetingPieces();
      var prompt := BOOT + CRLF + PROMPT;
      assert prompt[|prompt| - 5..] == PROMPT;
      CreditsAppend(prompt, CRLF);
      CreditsAppend("", Greeting());
      assert "" + Greeting() == Greeting();
    }

    /** The greeting and the prompt. The host may start sending at the colon of the prompt, while
        its CR LF is still to come. */
    method Greet() returns (going: bool)
      requires Valid() && uart.dev.written == "" && uart.delivered == "" && uart.overflows == 0
      modifies uart`wr, uart`overflows, uart.buf, uart.dev`at, uart.dev`sent, uart.dev`rx, uart.dev`tx, uart.dev`written
      ensures Valid() && (going ==> InStep(0, 0))
      ensures Behaved(uart.dev.lines, uart.dev.gated) ==> uart.overflows == 0
      ensures if going then uart.dev.written == Greeting() else uart.dev.at == |uart.dev.script|
      ensures uart.dev.Eager() && old(uart.dev.at) + |Greeting()| <= |uart.dev.script| ==>
                going && uart.dev.at <= old(uart.dev.at) + |Greeting()|
    {
      assert uart.dev.lines[..0] == [] && Joined([]) == "";
      GreetingPrompts();
      GreetingPieces();
      hide Joined, Xons, Prompted, Behaved, Balanced, RingContents, Greeting;
      going := Stage(BOOT, CRLF + (PROMPT + CRLF));
      if !going { return; }
      going := Stage(CRLF, PROMPT + CRLF);
      if !going { return; }
      going := Stage(PROMPT, CRLF);
      if !going { return; }
      going := Stage(CRLF, "");
    }

    /** One piece of the greeting; rest is what is still to come. */
    method Stage(s: string, ghost rest: string) returns (going: bool)
      requires Valid() && uart.delivered == "" && NUL !in s && uart.dev.written + s + rest == Greeting()
      requires Behaved(uart.dev.lines, uart.dev.gated) ==> uart.overflows == 0
      modifies uart`wr, uart`overflows, uart.buf, uart.dev`at, uart.dev`sent, uart.dev`rx, uart.dev`tx, uart.dev`written
      ensures Valid() && (going ==> uart.dev.written == old(uart.dev.written) + s)
      ensures Behaved(uart.dev.lines, uart.dev.gated) ==> uart.overflows == 0
      ensures !going ==> uart.dev.at == |uart.dev.script|
      ensures uart.dev.Eager() && old(uart.dev.at) + |s| <= |uart.dev.script| ==>
                going && uart.dev.at <= old(uart.dev.at) + |s|
    {
      hide Joined, Xons, Prompted, Balanced, RingContents, Greeting;
      if Behaved(uart.dev.lines, uart.dev.gated) {
        ConcatAssoc(uart.dev.written, s, rest);
        StageFits(uart.dev.written, s + rest);
        StageFits(uart.dev.written + s, rest);
      }
      going := uart.Print(s);
    }

    /** All that has been printed when so many lines have been decoded. */
    function Transcript(lines: seq<string>): string {
      if lines == [] then Greeting()
      else
        var before := lines[..|lines| - 1];
        Transcript(before) + (if before == [] then "" else [XON]) + [XOFF] + RecordTexts(DotsAt(before), decode(lines))
    }

    /** The dots on the line then. */
    function DotsAt(lines: seq<string>): nat {
      if lines == [] then 0 else Dots(DotsAt(lines[..|lines| - 1]), decode(lines))
    }

    /** The program has come to the end of a turn. */
    ghost predicate InLoop(firstPass: bool)
      reads this, uart, uart.dev, uart.buf
    {
      && Valid() && InOrder() && percontrol == []
      && firstPass == (fed == []) && InStep(|fed|, if firstPass then 0 else |fed| - 1)
      && reported == Emitted(fed) && NoErrors(reported) && lineNo == |reported| + 1
      && uart.dev.written == Transcript(fed) && dotCount == DotsAt(fed)
    }

    lemma TurnEnds(lines: seq<string>, line: string)
      ensures Transcript(lines + [line]) == Transcript(lines)
                                            + (if lines == [] then "" else ['\U{11}']) + ['\U{13}']
                                            + RecordTexts(DotsAt(lines), decode(lines + [line]))
      ensures DotsAt(lines + [line]) == Dots(DotsAt(lines), decode(lines + [line]))
      ensures Emitted(lines + [line]) == Emitted(lines) + decode(lines + [line])
    {
      assert (lines + [line])[..|lines|] == lines;
    }

    /** The transcript is the greeting, then a 19 when the first line has been taken, and 17 and 19 around
        every other; what the records print comes after the 19 of their line. */
    lemma {:induction false} TranscriptThrottled(lines: seq<string>) returns (t: string)
      ensures Transcript(lines) == "32-bit boot\r\n\r\nihex:\r\n" + t
      ensures Throttled(t, |lines|) && (lines == [] <==> t == "")
    {
      if lines == [] {
        GreetingPieces();
        t := "";
        assert Places(t) == {};
        assert Transcript(lines) == Greeting() + "";
        return;
      }
      hide *;
      var before, line := lines[..|lines| - 1], lines[|lines| - 1];
      assert before + [line] == lines;
      var was := TranscriptThrottled(before);
      TurnEnds(before, line);
      var text := RecordTexts(DotsAt(before), decode(lines));
      TextsPlain(DotsAt(before), decode(lines));
      ThrottledMore(was, |before|, text);
      var start := if before == [] then "" else ['\U{11}'];
      t := was + start + ['\U{13}'] + text;
      ConcatAssoc("32-bit boot\r\n\r\nihex:\r\n", was, start);
      ConcatAssoc("32-bit boot\r\n\r\nihex:\r\n", was + start, ['\U{13}']);
      ConcatAssoc("32-bit boot\r\n\r\nihex:\r\n", was + start + ['\U{13}'], text);
    }

    /** So is all that has been printed when the core is released, but for a last 17 and message. */
    lemma FarewellThrottled(lines: seq<string>)
      requires lines != []
      ensures TakesLeave(Farewell(lines), |lines|)
    {
      var text := RecordTexts(DotsAt(lines), decodeEnd(lines));
      TextsPlain(DotsAt(lines), decodeEnd(lines));
      assert "noelv" + CRLF == "noelv\r\n";
      hide *;
      var was := TranscriptThrottled(lines);
      FarewellIs(lines);
      ThrottledText(was, |lines|, text);
      ConcatAssoc("32-bit boot\r\n\r\nihex:\r\n", was, text);
      LeaveTaken(was + text, |lines|);
    }

    lemma FarewellIs(lines: seq<string>)
      ensures Farewell(lines) == Transcript(lines) + RecordTexts(DotsAt(lines), decodeEnd(lines)) + ['\U{11}']
                                 + ("noelv" + CRLF)
    {
      hide Transcript, DotsAt, RecordTexts;
    }

    lemma LoopHolds(firstPass: bool)
      requires InLoop(firstPass)
      ensures Valid() && Consistent() && InOrder() && FedInOrder() && (gEof ==> !firstPass)
      ensures uart.dev.at <= |uart.dev.script| && (gEof <==> HasEof(reported))
      ensures percontrol == [] && firstPass == (fed == []) && InStep(|fed|, if firstPass then 0 else |fed| - 1)
      ensures reported == Emitted(fed) && NoErrors(reported) && lineNo == |reported| + 1
      ensures uart.dev.written == Transcript(fed) && dotCount == DotsAt(fed)
      ensures Behaved(uart.dev.lines, uart.dev.gated) ==>
                uart.overflows == 0 && |fed| <= |uart.dev.lines| && fed == Texts(uart.dev.lines[..|fed|])
    {
    }

    lemma LoopAgain()
      requires Valid() && FedInOrder() && (Behaved(uart.dev.lines, uart.dev.gated) ==> uart.overflows == 0)
      requires percontrol == [] && fed != [] && InStep(|fed|, |fed| - 1)
      requires reported == Emitted(fed) && NoErrors(reported) && lineNo == |reported| + 1
      requires uart.dev.written == Transcript(fed) && dotCount == DotsAt(fed)
      ensures InLoop(false)
    {
      hide Joined, Balanced, RingContents, Prompted, Xons, Transcript, DotsAt, Emitted, NoErrors;
    }

    lemma ValidConsistent()
      requires Valid()
      ensures Consistent()
    {
    }

    /** The lines decoded after the next one. */
    function Following(lines: seq<string>): seq<string>
      requires |lines| < |uart.dev.lines|
    {
      lines + [UpToNul(uart.dev.lines[|lines|])]
    }

    /** The bytes that a turn takes and prints. */
    function TurnCost(lines: seq<string>): int
      requires |lines| < |uart.dev.lines|
    {
      |uart.dev.lines[|lines|]| + |Transcript(Following(lines))| - |Transcript(lines)|
    }

    /** Nothing keeps the next turn from its end. */
    ghost predicate Affords(lines: seq<string>, at: nat) {
      && Behaved(uart.dev.lines, uart.dev.gated) && uart.dev.Eager() && |lines| < |uart.dev.lines|
      && NoErrors(decode(Following(lines))) && at + TurnCost(lines) <= |uart.dev.script|
    }

    lemma AffordsParts(lines: seq<string>, at: nat)
      requires Affords(lines, at)
      ensures Behaved(uart.dev.lines, uart.dev.gated) && uart.dev.Eager() && |lines| < |uart.dev.lines|
      ensures NoErrors(decode(Following(lines))) && at + TurnCost(lines) <= |uart.dev.script|
      ensures Following(lines) == lines + [UpToNul(uart.dev.lines[|lines|])]
      ensures TurnCost(lines) == |uart.dev.lines[|lines|]| + (if lines == [] then 0 else 1) + 1
                                 + |RecordTexts(DotsAt(lines), decode(Following(lines)))|
    {
      TurnEnds(lines, UpToNul(uart.dev.lines[|lines|]));
      hide Transcript, DotsAt, RecordTexts, NoErrors, Behaved, UpToNul;
    }

    /** One turn of the main loop: credit, a line, and the records it gives rise to. It stops the
        program only if the host does not keep to its lines or a record has a checksum error. */
    method Turn(firstPass: bool) returns (going: bool)
      requires InLoop(firstPass)
      modifies this`gEof, this`lineNo, this`dotCount, this`ram, this`reported, this`fed, line
      modifies uart, uart.buf, uart.dev`at, uart.dev`sent, uart.dev`rx, uart.dev`tx, uart.dev`written
      ensures Consistent() && InOrder()
      ensures going ==> InLoop(false) && |fed| == |old(fed)| + 1 && old(fed) <= fed && old(uart.dev.at) < uart.dev.at
      ensures !going && uart.dev.at < |uart.dev.script| ==>
                !Behaved(uart.dev.lines, uart.dev.gated)
                || (old(fed) < fed && !NoErrors(decode(fed)) && StoppedAtError())
      ensures old(Affords(fed, uart.dev.at)) ==>
                going && fed == Following(old(fed)) && uart.dev.at <= old(uart.dev.at) + TurnCost(old(fed))
    {
      hide *;
      LoopHolds(firstPass);
      if Affords(fed, uart.dev.at) {
        AffordsParts(fed, uart.dev.at);
      }
      ghost var k, written, dots, before := |fed|, uart.dev.written, dotCount, fed;
      assert written + "" == written;
      if !firstPass {
        going := SendXon(k, k - 1);
        OrderKept();
        if !going { return; }
      }
      var ok, text;
      going, ok, text := TakeLine(k, k);
      OrderKept();
      if !going { return; }
      going := SendXoff(k + 1, k);
      OrderKept();
      if !going { return; }
      if !ok {
        Complain(k);
        OrderKept();
        return false;
      }
      TurnEnds(fed, text);
      fed := fed + [text];
      OrderMore(before, text);
      ReportsConcat(reported, decode(fed));
      going := Report(decode(fed), k + 1, k);
      OrderKept();
      ValidConsistent();
      if going {
        LoopAgain();
      }
    }

    /** The host did not keep to its lines: the program says so and stops for good. */
    method Complain(ghost k: nat)
      requires Valid() && !Behaved(uart.dev.lines, uart.dev.gated)
      modifies uart`wr, uart`overflows, uart.buf, uart.dev`at, uart.dev`sent, uart.dev`rx, uart.dev`tx, uart.dev`written
      ensures Valid()
      ensures uart.dev.written == old(uart.dev.written) + [XON] + ("1 err" + CRLF) || uart.dev.at == |uart.dev.script|
    {
      assert InStep(1, 0);
      hide *;
      var going := SendXon(1, 0);
      if going {
        going := SayLine("1 err", 1, 1);
      }
    }

    /** What has been printed when the core is released. */
    function Farewell(lines: seq<string>): string {
      Transcript(lines) + RecordTexts(DotsAt(lines), decodeEnd(lines)) + [XON] + ("noelv" + CRLF)
    }

    /** The host keeps to its lines, the decoder reports the end of the file at the count-th of them
        and no error, bytes keep moving, and the script is long enough. */
    ghost predicate Completes(count: nat) {
      && Behaved(uart.dev.lines, uart.dev.gated) && uart.dev.Eager() && 0 < count <= |uart.dev.lines|
      && HasEof(Emitted(First(count))) && (forall j | 0 <= j < count :: !HasEof(Emitted(First(j))))
      && NoErrors(Emitted(First(count)) + decodeEnd(First(count)))
      && |Farewell(First(count))| + |Joined(uart.dev.lines[..count])| + TX_DEPTH <= |uart.dev.script|
    }

    /** The texts of the host's first lines. */
    function First(count: nat): (texts: seq<string>)
      requires count <= |uart.dev.lines|
      ensures |texts| == count
    {
      Texts(uart.dev.lines[..count])
    }

    lemma FirstMore(j: nat)
      requires j < |uart.dev.lines|
      ensures First(j + 1) == First(j) + [UpToNul(uart.dev.lines[j])] == Following(First(j))
    {
      hide UpToNul;
      assert uart.dev.lines[..j + 1] == uart.dev.lines[..j] + [uart.dev.lines[j]];
    }

    /** What the first lines print and report is part of what more of them do. */
    lemma {:induction false} FirstGrow(j: nat, count: nat)
      requires j <= count <= |uart.dev.lines|
      ensures |Transcript(First(j))| <= |Transcript(First(count))|
      ensures NoErrors(Emitted(First(count))) ==> NoErrors(Emitted(First(j)))
      decreases count
    {
      hide *;
      if j < count {
        FirstMore(count - 1);
        TurnEnds(First(count - 1), UpToNul(uart.dev.lines[count - 1]));
        ErrorsJoin(Emitted(First(count - 1)), decode(First(count)));
        FirstGrow(j, count - 1);
      }
    }

    /** On the way to the end every turn comes to its end. */
    lemma CompletesTurn(count: nat, j: nat, at: nat)
      requires Completes(count) && j < count
      requires at <= |Transcript(First(j))| + |Joined(uart.dev.lines[..j])|
      ensures j < |uart.dev.lines| && Affords(First(j), at)
      ensures at + TurnCost(First(j)) <= |Transcript(First(j + 1))| + |Joined(uart.dev.lines[..j + 1])|
      ensures First(j + 1) == Following(First(j)) && !HasEof(Emitted(First(j)))
    {
      hide Joined, Transcript, Texts, Emitted, NoErrors, HasEof, UpToNul, Behaved, RecordTexts, DotsAt;
      var lines := uart.dev.lines;
      FirstMore(j);
      FirstGrow(j + 1, count);
      ErrorsJoin(Emitted(First(count)), decodeEnd(First(count)));
      TurnEnds(First(j), UpToNul(lines[j]));
      ErrorsJoin(Emitted(First(j)), decode(First(j + 1)));
      JoinedSnoc(lines, j);
      JoinedPrefix(lines, j + 1, count);
    }

    /** At the end the rest comes to its end too. */
    lemma CompletesEnd(count: nat)
      requires Completes(count)
      ensures Behaved(uart.dev.lines, uart.dev.gated) && uart.dev.Eager() && 0 < count <= |uart.dev.lines|
      ensures HasEof(Emitted(First(count))) && NoErrors(decodeEnd(First(count)))
      ensures |Farewell(First(count))| + |Joined(uart.dev.lines[..count])| + TX_DEPTH <= |uart.dev.script|
      ensures |Greeting()| <= |Farewell(First(count))| && TX_DEPTH > 0
      ensures Transcript(First(0)) == Greeting() && First(0) == []
    {
      ErrorsJoin(Emitted(First(count)), decodeEnd(First(count)));
      FirstGrow(0, count);
      assert Transcript([]) == Greeting();
      hide Joined, Transcript, Texts, Emitted, NoErrors, HasEof, Behaved, RecordTexts, DotsAt, Greeting;
    }

    /** The whole program. The core is released only in a releasable state, with the whole text
        printed; the program stops short of that only if the script ends, the host does not keep to
        its lines or a record has a checksum error. If none of these comes before the decoder reports
        the end of the file, the core is released. */
    method Upload(ghost count: nat := 0)
      requires Valid() && uart.dev.written == "" && uart.delivered == "" && uart.overflows == 0
      requires fed == [] && reported == [] && percontrol == [] && !gEof && dotCount == 0 && lineNo == 1
      modifies this, line, uart, uart.buf, uart.dev
      ensures Consistent() && InOrder()
      ensures percontrol == [] || percontrol == [3, 7]
      ensures percontrol != [] ==> Releasable() && uart.dev.written == Farewell(fed)
      ensures percontrol != [] ==> TakesLeave(uart.dev.written, |fed|)
      ensures forall a: nat :: ComesFrom(ram0, reported, a, Peek(ram, a))
      ensures percontrol == [] && uart.dev.at < |uart.dev.script| ==>
                !Behaved(uart.dev.lines, uart.dev.gated)
                || (!NoErrors(Emitted(fed) + decodeEnd(fed)) && StoppedAtError())
      ensures Behaved(uart.dev.lines, uart.dev.gated) && NoNul(uart.dev.lines) ==>
                |fed| <= |uart.dev.lines| && fed == uart.dev.lines[..|fed|]
      ensures Completes(count) && old(uart.dev.at) == 0 ==> percontrol == RELEASE && fed == First(count)
    {
      hide *;
      ghost var completes := Completes(count) && uart.dev.at == 0;
      if completes {
        CompletesEnd(count);
      }
      var going := Greet();
      LoopStarts(going);
      if !going {
        MemoryIs();
        return;
      }
      var firstPass := true;
      while !gEof
        invariant InLoop(firstPass)
        invariant percontrol == []
        invariant completes ==> |fed| <= count && fed == First(|fed|)
                                && uart.dev.at <= |Transcript(fed)| + |Joined(uart.dev.lines[..|fed|])|
        decreases |uart.dev.script| - uart.dev.at
      {
        LoopHolds(firstPass);
        if completes && |fed| < count {
          CompletesTurn(count, |fed|, uart.dev.at);
        }
        going := Turn(firstPass);
        if !going {
          ErrorsShow(fed);
          WholeLines();
          MemoryIs();
          return;
        }
        firstPass := false;
        LoopHolds(firstPass);
      }
      LoopHolds(firstPass);
      if completes && |fed| < count {
        CompletesTurn(count, |fed|, uart.dev.at);
      }
      FarewellThrottled(fed);
      Finish();
      ErrorsShow(fed);
      WholeLines();
      MemoryIs();
      ReleaseIs();
    }

    lemma MemoryIs()
      requires Consistent()
      ensures forall a: nat :: ComesFrom(ram0, reported, a, Peek(ram, a))
    {
      hide ComesFrom, Overlaid, Peek;
      forall a: nat {
        OverlaidComesFrom(ram0, reported, a);
      }
    }

    lemma ReleaseIs()
      ensures RELEASE == [3, 7]
    {
    }

    lemma LoopStarts(going: bool)
      requires percontrol == [] && fed == [] && reported == [] && dotCount == 0 && lineNo == 1 && Valid()
      requires Behaved(uart.dev.lines, uart.dev.gated) ==> uart.overflows == 0
      requires going ==> InStep(0, 0) && uart.dev.written == Greeting()
      ensures Consistent() && InOrder() && fed == uart.dev.lines[..|fed|]
      ensures going ==> InLoop(true)
    {
      hide Joined, Balanced, RingContents, Prompted, Xons;
      assert uart.dev.lines[..0] == [];
    }

    lemma ErrorsShow(lines: seq<string>)
      ensures lines != [] && !NoErrors(decode(lines)) ==> !NoErrors(Emitted(lines) + decodeEnd(lines))
      ensures !NoErrors(decodeEnd(lines)) ==> !NoErrors(Emitted(lines) + decodeEnd(lines))
    {
      hide NoErrors;
      if lines != [] {
        ErrorsJoin(Emitted(lines[..|lines| - 1]), decode(lines));
      }
      ErrorsJoin(Emitted(lines), decodeEnd(lines));
    }

    /** Of a host that behaves and sends no NUL the lines are passed on whole. */
    lemma WholeLines()
      requires InOrder()
      ensures Behaved(uart.dev.lines, uart.dev.gated) && NoNul(uart.dev.lines) ==>
                |fed| <= |uart.dev.lines| && fed == uart.dev.lines[..|fed|]
    {
      if NoNul(uart.dev.lines) {
        TextsWhole(uart.dev.lines);
      }
    }

    /** What follows the main loop: the decoder's last records, the last credit and message, and
        the handoff. */
    method Finish()
      requires InLoop(false) && gEof
      modifies this`gEof, this`lineNo, this`dotCount, this`ram, this`reported, this`percontrol
      modifies uart, uart.buf, uart.dev
      ensures Consistent() && InOrder()
      ensures percontrol == [] || percontrol == RELEASE
      ensures percontrol != [] ==> Releasable() && uart.dev.written == Farewell(fed)
      ensures percontrol == [] && uart.dev.at < |uart.dev.script| ==> !NoErrors(decodeEnd(fed)) && StoppedAtError()
      ensures uart.dev.Eager() && NoErrors(decodeEnd(fed))
              && old(uart.dev.at) + |Farewell(fed)| - |Transcript(fed)| + TX_DEPTH <= |uart.dev.script| ==>
                percontrol == RELEASE
    {
      hide *;
      LoopHolds(false);
      ReportsConcat(reported, decodeEnd(fed));
      FarewellParts();
      var going := Report(decodeEnd(fed), |fed|, |fed| - 1);
      OrderKept();
      ValidConsistent();
      if !going { return; }
      going := SendXon(|fed|, |fed| - 1);
      OrderKept();
      if !going { return; }
      going := SayLine("noelv", |fed|, |fed|);
      OrderKept();
      if !going { return; }
      ConsistentOverlay();
      ValidEof();
      Handoff();
    }

    lemma FarewellParts()
      ensures Farewell(fed) == Transcript(fed) + RecordTexts(DotsAt(fed), decodeEnd(fed)) + ['\U{11}']
                               + ("noelv" + CRLF)
      ensures Plain("noelv") && TX_DEPTH > 0
    {
      FarewellIs(fed);
      hide Farewell, Transcript, DotsAt, RecordTexts;
    }

    lemma ValidEof()
      requires Valid() && gEof
      ensures HasEof(reported) && uart.dev.Valid()
    {
      hide HasEof;
    }

    lemma ConsistentOverlay()
      requires Consistent()
      ensures ram == Overlaid(ram0, reported)
    {
    }

    /** Reads the status until the transmit FIFO is empty. The status register is the data register
        too: a byte that has come goes unread. */
    method AwaitDrained() returns (done: bool)
      requires uart.dev.Valid()
      modifies uart.dev`at, uart.dev`sent, uart.dev`rx, uart.dev`tx
      ensures uart.dev.Valid()
      ensures var dev := uart.dev;
              var d := Drained(dev.Stream(), dev.Limit(), dev.script[old(dev.at)..], old(dev.State()));
              dev.State() == d.port && dev.at == old(dev.at) + d.polls && done == d.done
    {
      hide *;
      PortBounds();
      ghost var dev, stream, limit := uart.dev, uart.dev.Stream(), uart.dev.Limit();
      ghost var d := Drained(stream, limit, dev.script[dev.at..], dev.State());
      DrainStarts(stream, limit, dev.script, dev.at, dev.State());
      done := false;
      var going := true;
      while going && !done
        invariant dev.Valid() && old(dev.at) <= dev.at
        invariant DrainSoFar(stream, limit, dev.script, old(dev.at), dev.at, d, dev.State(), going, done)
        modifies uart.dev`at, uart.dev`sent, uart.dev`rx, uart.dev`tx
        decreases going && !done, |dev.script| - dev.at
      {
        going, done := Poll(stream, limit, old(dev.at), d);
      }
      DrainComplete(stream, limit, dev.script, old(dev.at), dev.at, d, dev.State(), going, done);
    }

    lemma PortBounds()
      requires uart.dev.Valid()
      ensures uart.dev.at <= |uart.dev.script| && uart.dev.State().sent <= uart.dev.Limit() <= |uart.dev.Stream()|
    {
    }

    /** One read of the status while waiting. */
    method Poll(ghost stream: string, ghost limit: nat, ghost from: nat, ghost d: Drain)
      returns (going: bool, done: bool)
      requires uart.dev.Valid() && stream == uart.dev.Stream() && limit == uart.dev.Limit() && from <= uart.dev.at
      requires DrainSoFar(stream, limit, uart.dev.script, from, uart.dev.at, d, uart.dev.State(), true, false)
      modifies uart.dev`at, uart.dev`sent, uart.dev`rx, uart.dev`tx
      ensures uart.dev.Valid() && (done ==> going)
      ensures if going then old(uart.dev.at) < uart.dev.at <= |uart.dev.script| else uart.dev.at == old(uart.dev.at)
      ensures DrainSoFar(stream, limit, uart.dev.script, from, uart.dev.at, d, uart.dev.State(), going, done)
    {
      hide DrainSoFar, Joined, Credits, Ticked, InStream, Min;
      ghost var at, p := uart.dev.at, uart.dev.State();
      DrainStep(stream, limit, uart.dev.script, from, at, d, p);
      var v;
      going, v := uart.dev.RawRead();
      done := going && v.txEmpty;
      assert going ==> uart.dev.State() == Ticked(stream, limit, uart.dev.script[at], p).Taken();
      assert !going ==> uart.dev.State() == p;
    }

    /** Waits for the transmit FIFO, then hands the UART over and releases the core. */
    method Handoff()
      requires uart.dev.Valid() && percontrol == [] && reported == Emitted(fed) + decodeEnd(fed)
      requires ram == Overlaid(ram0, reported) && HasEof(reported) && NoErrors(reported)
      modifies this`percontrol, uart.dev`at, uart.dev`sent, uart.dev`rx, uart.dev`tx
      ensures var dev := uart.dev;
              var d := Drained(dev.Stream(), dev.Limit(), dev.script[old(dev.at)..], old(dev.State()));
              dev.State() == d.port && dev.at == old(dev.at) + d.polls && percontrol == if d.done then RELEASE else []
      ensures var dev := uart.dev;
              var d := Drained(dev.Stream(), dev.Limit(), dev.script[old(dev.at)..], old(dev.State()));
              old(dev.sent) <= dev.sent <= |dev.Stream()|
              && old(dev.rx) + dev.Stream()[old(dev.sent)..dev.sent] == d.lost + dev.rx
              && (d.polls > 0 ==> (d.lost == "" <==> old(dev.rx) == "" && dev.sent == old(dev.sent)))
      ensures percontrol == [] ==> uart.dev.at == |uart.dev.script|
      ensures uart.dev.Eager() && old(uart.dev.at) + TX_DEPTH <= |uart.dev.script| ==> percontrol == RELEASE
      ensures percontrol != [] ==> Releasable()
    {
      hide Joined, HasEof, Overlaid, NoErrors, Emitted, Drained;
      ghost var dev := uart.dev;
      DrainLoses(dev.Stream(), dev.Limit(), dev.script[dev.at..], dev.State());
      DrainEnds(dev.Stream(), dev.Limit(), dev.script[dev.at..], dev.State());
      var done := AwaitDrained();
      if done {
        WritePercontrol(MUX_TO_NOELV + NOELV_RUN);
        WritePercontrol(MUX_TO_NOELV + NOELV_RUN + REC_DUMP);
      }
    }
  }

  const RELEASE := [MUX_TO_NOELV + NOELV_RUN, MUX_TO_NOELV + NOELV_RUN + REC_DUMP]

  /** The places of 19 in a text. */
  ghost function Places(t: string): set<nat> {
    set i | 0 <= i < |t| && t[i] == '\U{13}'
  }

  /** At the start or just after a 17. */
  predicate Resumes(t: string, i: nat)
    requires i <= |t|
  {
    i == 0 || t[i - 1] == '\U{11}'
  }

  /** One 19 for each line taken: the first at the start, every other just after a 17, and every 17 has
      one after it. */
  ghost predicate Throttled(t: string, lines: nat) {
    && (forall i | 0 <= i < |t| :: Resumes(t, i) == (t[i] == '\U{13}'))
    && (t != "" ==> t[|t| - 1] != '\U{11}') && |Places(t)| == lines
  }

  /** After the greeting and the lines come a last 17 and message. */
  ghost predicate TakesLeave(written: string, lines: nat) {
    exists t: string ::
      written == "32-bit boot\r\n\r\nihex:\r\n" + t + ['\U{11}'] + "noelv\r\n" && Throttled(t, lines)
  }

  lemma LeaveTaken(t: string, lines: nat)
    requires Throttled(t, lines)
    ensures TakesLeave("32-bit boot\r\n\r\nihex:\r\n" + t + ['\U{11}'] + "noelv\r\n", lines)
  {
    hide Throttled;
  }

  lemma ThrottledText(t: string, lines: nat, text: string)
    requires Throttled(t, lines) && t != "" && Plain(text)
    ensures Throttled(t + text, lines)
  {
    var more := t + text;
    forall i | |t| <= i < |more| ensures more[i] != '\U{11}' && more[i] != '\U{13}' {
      assert more[i] == text[i - |t|];
    }
    assert forall i | 0 <= i < |t| :: more[i] == t[i];
    assert Places(more) == Places(t);
    forall i | 0 <= i < |more| ensures Resumes(more, i) == (more[i] == '\U{13}') {
      assert i < |t| ==> Resumes(more, i) == Resumes(t, i);
    }
  }

  lemma ThrottledMore(t: string, lines: nat, text: string)
    requires Throttled(t, lines) && (lines == 0 <==> t == "") && Plain(text)
    ensures Throttled(t + (if lines == 0 then "" else ['\U{11}']) + ['\U{13}'] + text, lines + 1)
  {
    var start := if lines == 0 then "" else ['\U{11}'];
    var more := t + start + ['\U{13}'];
    assert Places(more) == Places(t) + {|more| - 1};
    ThrottledText(more, lines + 1, text);
  }

  predicate NoNul(lines: seq<string>) {
    forall line <- lines :: NUL !in line
  }

  function Texts(lines: seq<string>): (texts: seq<string>)
    ensures |texts| == |lines|
  {
    seq(|lines|, i requires 0 <= i < |lines| => UpToNul(lines[i]))
  }

  /** Lines without a NUL are passed on whole. */
  lemma TextsWhole(lines: seq<string>)
    requires NoNul(lines)
    ensures forall k | 0 <= k <= |lines| :: Texts(lines[..k]) == lines[..k]
  {
    forall k, i | 0 <= i < k <= |lines| ensures UpToNul(lines[..k][i]) == lines[..k][i] {
      UpToNulWhole(lines[i]);
    }
    forall k | 0 <= k <= |lines| ensures Texts(lines[..k]) == lines[..k] {
      forall i | 0 <= i < k ensures Texts(lines[..k])[i] == lines[..k][i] {
        UpToNulWhole(lines[i]);
      }
    }
  }
}
