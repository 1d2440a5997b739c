/** The converter from a binary file to the text of a memory image: four bytes in hexadecimal to a
    line, read in whatever chunks the reader gives. */
module BinToMemh {
  import opened Common
  import opened Wrappers

  type Byte = x: nat | x < 256

  const WORD := 4
  const BUFFER := 4096

  // ---------------------------------------------------------------- the text

  function Pair(b: Byte): string {
    [Digit(b / 16), Digit(b % 16)]
  }

  /** The first j bytes of a line, with a space after each but the last of the line. */
  function Pairs(w: seq<Byte>, j: nat): (s: string)
    requires j <= |w|
    ensures |s| == if 0 < j == |w| then 3 * j - 1 else 3 * j
  {
    if j == 0 then "" else Pairs(w, j - 1) + Pair(w[j - 1]) + if j < |w| then " " else ""
  }

  function Line(w: seq<Byte>): string {
    Pairs(w, |w|) + "\n"
  }

  /** The lines of one chunk. */
  function Lines(data: seq<Byte>): string
    decreases |data|
  {
    if data == [] then "" else var k := Min(WORD, |data|); Line(data[..k]) + Lines(data[k..])
  }

  function Text(chunks: seq<seq<Byte>>): string
    decreases |chunks|
  {
    if chunks == [] then "" else Lines(chunks[0]) + Text(chunks[1..])
  }

  function Joined(chunks: seq<seq<Byte>>): seq<Byte>
    decreases |chunks|
  {
    if chunks == [] then [] else chunks[0] + Joined(chunks[1..])
  }

  function Padding(n: nat): string {
    if n == 0 then "" else Padding(n - 1) + "00\n"
  }

  /** How many bytes are missing. */
  function Short(length: nat, byteCount: int): nat {
    if length < byteCount then byteCount - length else 0
  }

  function Image(chunks: seq<seq<Byte>>, byteCount: int): string {
    Text(chunks) + Padding(Short(|Joined(chunks)|, byteCount))
  }

  // ---------------------------------------------------------------- the text, character by character

  /** Three characters for each byte: its high digit, its low one, and a space, or a newline after every
      fourth byte and after the last. */
  ghost predicate SpellsBytes(text: string, data: seq<Byte>) {
    && |text| == 3 * |data|
    && forall i | 0 <= i < |data| :: SpellsByte(text, i, data[i], if i % 4 == 3 || i == |data| - 1 then '\n' else ' ')
  }

  ghost predicate SpellsByte(text: string, i: nat, b: Byte, gap: char)
    requires 3 * i + 2 < |text|
  {
    text[3 * i] == Digit(b / 16) && text[3 * i + 1] == Digit(b % 16) && text[3 * i + 2] == gap
  }

  lemma {:induction false} PairsSpell(w: seq<Byte>, k: nat, i: nat)
    requires i < k <= |w|
    ensures var s := Pairs(w, k);
            && 3 * i + 1 < |s| && s[3 * i] == Digit(w[i] / 16) && s[3 * i + 1] == Digit(w[i] % 16)
            && (i + 1 < |w| ==> 3 * i + 2 < |s| && s[3 * i + 2] == ' ')
  {
    if i < k - 1 {
      PairsSpell(w, k - 1, i);
    }
  }

  lemma LineSpells(w: seq<Byte>, i: nat)
    requires i < |w|
    ensures |Line(w)| == 3 * |w| && SpellsByte(Line(w), i, w[i], if i == |w| - 1 then '\n' else ' ')
  {
    PairsSpell(w, |w|, i);
    hide Pairs;
  }

  lemma SpellsLater(line: string, rest: string, i: nat, j: nat, b: Byte, gap: char)
    requires 3 * j + 2 < |rest| && |line| == 3 * i && SpellsByte(rest, j, b, gap)
    ensures SpellsByte(line + rest, i + j, b, gap)
  {
    assert 3 * (i + j) == |line| + 3 * j;
  }

  /** A full line before more lines, or the last line alone. */
  lemma SpellsConcat(line: string, rest: string, data: seq<Byte>, k: nat)
    requires 0 < k <= |data| && (k == 4 || (k < 4 && k == |data|)) && |line| == 3 * k
    requires forall i | 0 <= i < k :: SpellsByte(line, i, data[i], if i == k - 1 then '\n' else ' ')
    requires SpellsBytes(rest, data[k..])
    ensures SpellsBytes(line + rest, data)
  {
    hide SpellsByte;
    forall i | 0 <= i < |data|
      ensures SpellsByte(line + rest, i, data[i], if i % 4 == 3 || i == |data| - 1 then '\n' else ' ')
    {
      var gap := if i % 4 == 3 || i == |data| - 1 then '\n' else ' ';
      if i < k {
        assert SpellsByte(line, i, data[i], gap);
        SpellsSooner(line, rest, i, data[i], gap);
      } else {
        var j := i - k;
        assert data[k..][j] == data[i] && j % 4 == i % 4;
        SpellsLater(line, rest, k, j, data[i], gap);
      }
    }
  }

  lemma SpellsSooner(line: string, rest: string, i: nat, b: Byte, gap: char)
    requires 3 * i + 2 < |line| && SpellsByte(line, i, b, gap)
    ensures SpellsByte(line + rest, i, b, gap)
  {
  }

  /** The text of a chunk spells its bytes. */
  lemma {:induction false} LinesSpell(data: seq<Byte>)
    ensures SpellsBytes(Lines(data), data)
    decreases |data|
  {
    if data == [] {
      return;
    }
    var k := Min(WORD, |data|);
    var first, rest := data[..k], data[k..];
    LinesSpell(rest);
    LineSpells(first, 0);
    assert Lines(data) == Line(first) + Lines(rest);
    hide Line, Lines, SpellsByte, SpellsBytes;
    forall i | 0 <= i < k ensures SpellsByte(Line(first), i, data[i], if i == k - 1 then '\n' else ' ') {
      LineSpells(first, i);
    }
    SpellsConcat(Line(first), Lines(rest), data, k);
  }

  lemma {:induction false} PaddingSpells(n: nat, i: nat)
    requires i < n
    ensures |Padding(n)| == 3 * n && Padding(n)[3 * i..3 * i + 3] == "00\n"
  {
    if i < n - 1 {
      PaddingSpells(n - 1, i);
    } else if n > 1 {
      PaddingSpells(n - 1, 0);
    }
  }

  function Flat(texts: seq<string>): string
    decreases |texts|
  {
    if texts == [] then "" else texts[0] + Flat(texts[1..])
  }

  /** The image is a text for each chunk that spells its bytes, one after the other, and then one zero
      byte to a line for each byte still missing. */
  ghost predicate SpellsImage(image: string, chunks: seq<seq<Byte>>, byteCount: int) {
    exists texts: seq<string>, padding: string ::
      && image == Flat(texts) + padding && |texts| == |chunks|
      && (forall i | 0 <= i < |chunks| :: SpellsBytes(texts[i], chunks[i]))
      && IsPadding(padding, byteCount - |Joined(chunks)|)
  }

  ghost predicate IsPadding(padding: string, missing: int) {
    && |padding| == (if missing < 0 then 0 else 3 * missing)
    && forall i: nat | i < missing :: padding[3 * i..3 * i + 3] == "00\n"
  }

  lemma {:induction false} TextSpells(chunks: seq<seq<Byte>>) returns (texts: seq<string>)
    ensures Text(chunks) == Flat(texts) && |texts| == |chunks|
    ensures forall i | 0 <= i < |chunks| :: SpellsBytes(texts[i], chunks[i])
    decreases |chunks|
  {
    hide Lines, SpellsBytes;
    if chunks == [] {
      return [];
    }
    texts := TextSpells(chunks[1..]);
    LinesSpell(chunks[0]);
    var first := [Lines(chunks[0])];
    assert (first + texts)[1..] == texts;
    texts := first + texts;
    assert forall i | 0 < i < |chunks| :: chunks[i] == chunks[1..][i - 1];
  }

  lemma ImageSpells(chunks: seq<seq<Byte>>, byteCount: int)
    ensures SpellsImage(Image(chunks, byteCount), chunks, byteCount)
  {
    hide Text, SpellsBytes, Joined, Padding, Flat;
    var texts := TextSpells(chunks);
    var missing := byteCount - |Joined(chunks)|;
    var n := Short(|Joined(chunks)|, byteCount);
    NoPadding();
    forall i: nat | i < missing ensures |Padding(n)| == 3 * n && Padding(n)[3 * i..3 * i + 3] == "00\n" {
      PaddingSpells(n, i);
    }
    if missing > 0 {
      PaddingSpells(n, 0);
    }
    assert IsPadding(Padding(n), missing);
  }

  lemma NoPadding()
    ensures Padding(0) == ""
  {
  }

  // ---------------------------------------------------------------- the converter

  datatype ReadError = NoError | EndOfFile | OtherError

  /** Gives the chunks one by one, the last together with the end of the file or with another error. */
  class Reader {
    const chunks: seq<seq<Byte>>
    const fails: bool
    var next: nat

    constructor (chunks: seq<seq<Byte>>, fails: bool)
      requires chunks != [] && forall chunk <- chunks :: |chunk| <= 4096
      ensures this.chunks == chunks && this.fails == fails && next == 0 && Valid()
    {
      this.chunks, this.fails, this.next := chunks, fails, 0;
    }

    ghost predicate Valid()
      reads this
    {
      chunks != [] && next <= |chunks| && forall i | 0 <= i < |chunks| :: |chunks[i]| <= 4096
    }

    method Read(b: array<Byte>) returns (n: nat, error: ReadError)
      requires Valid() && next < |chunks| && b.Length == BUFFER
      modifies this, b
      ensures Valid() && next == old(next) + 1
      ensures n == |chunks[old(next)]| && b[..n] == chunks[old(next)]
      ensures error == if next < |chunks| then NoError else if fails then OtherError else EndOfFile
    {
      var chunk := chunks[next];
      n := |chunk|;
      for i := 0 to n
        modifies b
        invariant b[..i] == chunk[..i]
      {
        b[i] := chunk[i];
      }
      assert chunk[..n] == chunk;
      next := next + 1;
      error := if next < |chunks| then NoError else if fails then OtherError else EndOfFile;
    }
  }

  /** Fills the line buffer with the line for chunkSize bytes from the i-th on. */
  method FormatLine(b: array<Byte>, i: nat, chunkSize: nat, lineBuf: array<char>, ghost data: seq<Byte>)
    returns (lineIdx: nat)
    requires lineBuf.Length == WORD * 3 && |data| <= b.Length && b[..|data|] == data
    requires 0 < chunkSize <= WORD && i + chunkSize <= |data|
    modifies lineBuf
    ensures lineIdx <= lineBuf.Length && lineBuf[..lineIdx] == Line(data[i..i + chunkSize])
  {
    ghost var w := data[i..i + chunkSize];
    assert forall j | 0 <= j < chunkSize :: w[j] == b[..|data|][i + j];
    lineIdx := 0;
    PairsStep(w, 0);
    hide Pairs, Pair;
    for j := 0 to chunkSize
      invariant lineIdx == |Pairs(w, j)| && lineBuf[..lineIdx] == Pairs(w, j)
      modifies lineBuf
    {
      PairsStep(w, j);
      var val := b[i + j];
      assert val == w[j];
      PutPair(lineBuf, lineIdx, val);
      lineIdx := lineIdx + 2;
      if j < chunkSize - 1 {
        PutAt(lineBuf, lineIdx, ' ');
        lineIdx := lineIdx + 1;
      }
    }
    PutAt(lineBuf, lineIdx, '\n');
    lineIdx := lineIdx + 1;
  }

  method PutPair(a: array<char>, at: nat, val: Byte)
    requires at + 1 < a.Length
    modifies a
    ensures a[..at + 2] == old(a[..at]) + Pair(val)
  {
    a[at] := Digit(val / 16);
    a[at + 1] := Digit(val % 16);
  }

  method PutAt(a: array<char>, at: nat, c: char)
    requires at < a.Length
    modifies a
    ensures a[..at + 1] == old(a[..at]) + [c]
  {
    a[at] := c;
  }

  lemma PairsStep(w: seq<Byte>, j: nat)
    requires j < |w|
    ensures Pairs(w, 0) == ""
            && Pairs(w, j + 1) == if j + 1 < |w| then Pairs(w, j) + Pair(w[j]) + " " else Pairs(w, j) + Pair(w[j])
  {
  }

  lemma LinesStep(data: seq<Byte>, i: nat, k: nat)
    requires i < |data| && k == if i + WORD > |data| then |data| - i else WORD
    ensures Lines(data[i..]) == Line(data[i..i + k]) + Lines(data[i + k..])
  {
    hide Line;
    var rest := data[i..];
    assert rest[..k] == data[i..i + k] && rest[k..] == data[i + k..];
  }

  lemma ChunkStep(chunks: seq<seq<Byte>>, i: nat)
    requires i < |chunks|
    ensures Text(chunks[i..]) == Lines(chunks[i]) + Text(chunks[i + 1..])
    ensures Joined(chunks[i..]) == chunks[i] + Joined(chunks[i + 1..])
  {
    hide Lines;
    assert chunks[i..][1..] == chunks[i + 1..];
  }

  lemma TextEnd(chunks: seq<seq<Byte>>, text: string)
    ensures text + Text(chunks[|chunks|..]) == text && |Joined(chunks[|chunks|..])| == 0
    ensures chunks[0..] == chunks && text + Padding(0) == text && Lines([]) == ""
  {
  }

  lemma PaddingStep(text: string, k: nat)
    ensures text + Padding(k + 1) == text + Padding(k) + "00\n"
  {
  }

  method FormatChunk(b: array<Byte>, n: nat, lineBuf: array<char>) returns (text: string)
    requires lineBuf.Length == WORD * 3 && n <= b.Length
    modifies lineBuf
    ensures text == Lines(b[..n]) && SpellsBytes(text, b[..n])
  {
    hide SpellsBytes;
    LinesSpell(b[..n]);
    text := "";
    var i := 0;
    ghost var data := b[..n];
    assert data[0..] == data && Lines(data[n..]) == "";
    hide Lines, Line, Min;
    while i < n
      invariant i <= n && text + Lines(data[i..]) == Lines(data)
      modifies lineBuf
    {
      var chunkSize := WORD;
      if i + chunkSize > n {
        chunkSize := n - i;
      }
      LinesStep(data, i, chunkSize);
      var lineIdx := FormatLine(b, i, chunkSize, lineBuf, data);
      ConcatAssoc(text, lineBuf[..lineIdx], Lines(data[i + chunkSize..]));
      text := text + lineBuf[..lineIdx];
      i := i + chunkSize;
    }
  }

  /** The bytes still missing from the count and the text so far, with some chunks still to come. */
  ghost predicate ReadSoFar(chunks: seq<seq<Byte>>, i: nat, byteCount: int, text: string, missing: int) {
    && i <= |chunks| && text + Text(chunks[i..]) == Text(chunks)
    && missing == byteCount - |Joined(chunks)| + |Joined(chunks[i..])|
  }

  lemma ReadStarts(chunks: seq<seq<Byte>>, byteCount: int)
    ensures ReadSoFar(chunks, 0, byteCount, "", byteCount)
  {
    assert chunks[0..] == chunks;
  }

  lemma ReadStep(chunks: seq<seq<Byte>>, i: nat, byteCount: int, text: string, missing: int)
    requires i < |chunks| && ReadSoFar(chunks, i, byteCount, text, missing)
    ensures ReadSoFar(chunks, i + 1, byteCount, text + Lines(chunks[i]), missing - |chunks[i]|)
    ensures |chunks[i]| == 0 ==> text + Lines(chunks[i]) == text
  {
    hide Text, Joined;
    ChunkStep(chunks, i);
    ConcatAssoc(text, Lines(chunks[i]), Text(chunks[i + 1..]));
  }

  lemma ReadEnds(chunks: seq<seq<Byte>>, byteCount: int, text: string, missing: int)
    requires ReadSoFar(chunks, |chunks|, byteCount, text, missing)
    ensures text == Text(chunks) && missing == byteCount - |Joined(chunks)|
  {
    TextEnd(chunks, text);
  }

  /** The read loop: all chunks up to the end of the file, or an error. */
  method ReadAll(r: Reader, byteCount: int) returns (ok: bool, text: string, missing: int)
    requires r.Valid() && r.next == 0
    modifies r
    ensures ok == !r.fails
    ensures ok ==> text == Text(r.chunks) && missing == byteCount - |Joined(r.chunks)|
  {
    var b := new Byte[BUFFER](_ => 0);
    var lineBuf := new char[WORD * 3](_ => '0');
    text, missing := "", byteCount;
    var reading := true;
    ghost var chunks := r.chunks;
    ReadStarts(chunks, byteCount);
    hide ReadSoFar, Lines;
    while reading
      invariant r.Valid() && (reading <==> r.next < |chunks|) && (!reading ==> !r.fails)
      invariant ReadSoFar(chunks, r.next, byteCount, text, missing)
      decreases |chunks| - r.next
    {
      ReadStep(chunks, r.next, byteCount, text, missing);
      var n, error := r.Read(b);
      if n > 0 {
        missing := missing - n;
        var lines := FormatChunk(b, n, lineBuf);
        text := text + lines;
      }
      if error == EndOfFile {
        reading := false;
      } else if error != NoError {
        return false, text, missing;
      }
    }
    ReadEnds(chunks, byteCount, text, missing);
    ok := true;
  }

  /** The padding loop. */
  method Pad(start: string, count: int) returns (text: string)
    ensures text == start + Padding(if count > 0 then count else 0)
  {
    text := start;
    var missing := count;
    ghost var k := 0;
    assert start + Padding(0) == start;
    while missing > 0
      invariant missing == count - k && (k <= count || k == 0) && text == start + Padding(k)
    {
      PaddingStep(start, k);
      missing := missing - 1;
      text := text + "00\n";
      k := k + 1;
    }
  }

  /** On an error other than the end of the file nothing is promised about what has been written. */
  method Convert(r: Reader, byteCount: int) returns (out: Option<string>)
    requires r.Valid() && r.next == 0
    modifies r
    ensures out == if r.fails then None else Some(Image(r.chunks, byteCount))
    ensures out.Some? ==> SpellsImage(out.value, r.chunks, byteCount)
  {
    ImageSpells(r.chunks, byteCount);
    hide Text, Joined, Padding, SpellsImage;
    var ok, text, missing := ReadAll(r, byteCount);
    if !ok {
      return None;
    }
    text := Pad(text, missing);
    return Some(text);
  }

  // ---------------------------------------------------------------- reading the text back

  function Value(digit: char): nat {
    if '0' <= digit <= '9' then (digit - '0') as nat else if 'a' <= digit <= 'f' then (digit - 'a') as nat + 10 else 0
  }

  /** All pairs of digits in a text, between spaces and ends of lines. */
  function Parse(text: string): seq<nat>
    decreases |text|
  {
    if text == "" then []
    else if text[0] == ' ' || text[0] == '\n' || |text| == 1 then Parse(text[1..])
    else [Value(text[0]) * 16 + Value(text[1])] + Parse(text[2..])
  }

  lemma DigitValue(v: nat)
    requires v < 16
    ensures Value(Digit(v)) == v && Digit(v) != ' ' && Digit(v) != '\n'
  {
  }

  lemma ParsePair(b: Byte, rest: string)
    ensures Parse(Pair(b) + rest) == [b] + Parse(rest)
  {
    DigitValue(b / 16);
    DigitValue(b % 16);
    assert (Pair(b) + rest)[2..] == rest;
  }

  lemma ParseGap(gap: char, rest: string)
    requires gap == ' ' || gap == '\n'
    ensures Parse([gap] + rest) == Parse(rest)
  {
    assert ([gap] + rest)[1..] == rest;
  }

  lemma {:induction false} ParsePairs(w: seq<Byte>, j: nat, rest: string)
    requires j <= |w|
    ensures Parse(Pairs(w, j) + rest) == w[..j] + Parse(rest)
    decreases j
  {
    hide Parse, Pair;
    if j == 0 {
      assert Pairs(w, 0) + rest == rest;
    } else {
      var b := w[j - 1];
      if j < |w| {
        assert Pairs(w, j) + rest == Pairs(w, j - 1) + (Pair(b) + (" " + rest));
        ParsePairs(w, j - 1, Pair(b) + (" " + rest));
        ParsePair(b, " " + rest);
        ParseGap(' ', rest);
      } else {
        assert Pairs(w, j) + rest == Pairs(w, j - 1) + (Pair(b) + rest);
        ParsePairs(w, j - 1, Pair(b) + rest);
        ParsePair(b, rest);
      }
      assert w[..j - 1] + [b] == w[..j];
    }
  }

  lemma ParseLine(w: seq<Byte>, rest: string)
    ensures Parse(Line(w) + rest) == w + Parse(rest)
  {
    hide Parse, Pairs;
    assert Line(w) + rest == Pairs(w, |w|) + ("\n" + rest) && w[..|w|] == w;
    ParsePairs(w, |w|, "\n" + rest);
    ParseGap('\n', rest);
  }

  lemma {:induction false} ParseLines(data: seq<Byte>, rest: string)
    ensures Parse(Lines(data) + rest) == data + Parse(rest)
    decreases |data|
  {
    hide Parse, Line;
    if data == [] {
      assert Lines(data) + rest == rest;
    } else {
      var k := Min(WORD, |data|);
      assert Lines(data) + rest == Line(data[..k]) + (Lines(data[k..]) + rest);
      ParseLine(data[..k], Lines(data[k..]) + rest);
      ParseLines(data[k..], rest);
      assert data[..k] + data[k..] == data;
    }
  }

  lemma {:induction false} ParseText(chunks: seq<seq<Byte>>, rest: string)
    ensures Parse(Text(chunks) + rest) == Joined(chunks) + Parse(rest)
    decreases |chunks|
  {
    hide Parse, Lines;
    if chunks == [] {
      assert Text(chunks) + rest == rest;
    } else {
      assert Text(chunks) + rest == Lines(chunks[0]) + (Text(chunks[1..]) + rest);
      ParseLines(chunks[0], Text(chunks[1..]) + rest);
      ParseText(chunks[1..], rest);
    }
  }

  lemma {:induction false} ParsePadding(n: nat)
    ensures Parse(Padding(n)) == seq(n, _ => 0)
  {
    if n > 0 {
      var front: seq<nat> := seq(n - 1, _ => 0);
      ParsePadding(n - 1);
      PaddingFront(n - 1);
      assert Line([0]) == "00\n";
      hide Parse, Line;
      ParseLine([0], Padding(n - 1));
      assert [0] + front == seq(n, _ => 0);
    }
  }

  lemma {:induction false} PaddingFront(n: nat)
    ensures Padding(n + 1) == "00\n" + Padding(n)
  {
    if n > 0 {
      PaddingFront(n - 1);
      ConcatAssoc("00\n", Padding(n - 1), "00\n");
    }
  }

  /** In whatever chunks the input comes, the image holds just its bytes, then zeros up to the count. */
  lemma ImageHolds(chunks: seq<seq<Byte>>, byteCount: int)
    ensures Parse(Image(chunks, byteCount)) == Joined(chunks) + seq(Short(|Joined(chunks)|, byteCount), _ => 0)
  {
    ParseText(chunks, Padding(Short(|Joined(chunks)|, byteCount)));
    ParsePadding(Short(|Joined(chunks)|, byteCount));
  }

  // ---------------------------------------------------------------- when the chunks do not show

  /** Every chunk before the last that is not empty is a multiple of four bytes. */
  predicate Aligned(chunks: seq<seq<Byte>>)
    decreases |chunks|
  {
    chunks == [] || ((|chunks[0]| % WORD == 0 || Joined(chunks[1..]) == []) && Aligned(chunks[1..]))
  }

  lemma {:induction false} LinesConcat(a: seq<Byte>, b: seq<Byte>)
    requires |a| % WORD == 0
    ensures Lines(a + b) == Lines(a) + Lines(b)
    decreases |a|
  {
    hide Line;
    if a == [] {
      assert a + b == b;
    } else {
      var rest := a[WORD..];
      assert (a + b)[..WORD] == a[..WORD] && (a + b)[WORD..] == rest + b;
      LinesConcat(rest, b);
    }
  }

  lemma LineBreak(w: seq<Byte>, j: nat)
    requires j < |w|
    ensures 3 * j + 2 < |Line(w)| && Line(w)[3 * j + 2] == if j + 1 < |w| then ' ' else '\n'
  {
    LineSpells(w, j);
    hide Line;
  }

  /** A chunk that ends inside a line and is followed by more bytes breaks the line. */
  lemma {:induction false} Broken(a: seq<Byte>, b: seq<Byte>, text: string)
    requires |a| % WORD != 0 && b != []
    ensures Lines(a + b) != Lines(a) + text
    decreases |a|
  {
    var k := Min(WORD, |a + b|);
    var line := Line((a + b)[..k]);
    if |a| < WORD {
      var j := |a| - 1;
      LineBreak((a + b)[..k], j);
      LineBreak(a, j);
      assert a[..|a|] == a && a[|a|..] == [];
      hide Line;
      assert Lines(a) == Line(a);
      assert (Lines(a) + text)[3 * j + 2] == '\n' && Lines(a + b)[3 * j + 2] == ' ';
    } else {
      hide Line;
      var rest := a[WORD..];
      assert (a + b)[..WORD] == a[..WORD] && (a + b)[WORD..] == rest + b;
      Broken(rest, b, text);
      var first := Line(a[..WORD]);
      assert (first + Lines(rest + b))[|first|..] == Lines(rest + b);
      assert (first + (Lines(rest) + text))[|first|..] == Lines(rest) + text;
      ConcatAssoc(first, Lines(rest), text);
    }
  }

  /** The text is that of the whole input in one chunk just when the chunks are aligned. */
  lemma {:induction false} TextIff(chunks: seq<seq<Byte>>)
    ensures Text(chunks) == Lines(Joined(chunks)) <==> Aligned(chunks)
    decreases |chunks|
  {
    hide Lines;
    if chunks == [] {
      assert Lines([]) == "" by {
        TextEnd(chunks, "");
      }
    } else {
      var first, rest := chunks[0], Joined(chunks[1..]);
      TextIff(chunks[1..]);
      if |first| % WORD == 0 {
        LinesConcat(first, rest);
        assert (Lines(first) + Text(chunks[1..]))[|Lines(first)|..] == Text(chunks[1..]);
        assert (Lines(first) + Lines(rest))[|Lines(first)|..] == Lines(rest);
      } else if rest != [] {
        Broken(first, rest, Text(chunks[1..]));
      } else {
        assert first + rest == first;
        TextEnd(chunks, "");
        EmptyText(chunks[1..]);
        assert Lines(first) + "" == Lines(first);
      }
    }
  }

  lemma {:induction false} EmptyText(chunks: seq<seq<Byte>>)
    requires Joined(chunks) == []
    ensures Text(chunks) == "" && Aligned(chunks)
    decreases |chunks|
  {
    if chunks != [] {
      EmptyText(chunks[1..]);
    }
  }

  lemma OnceText(data: seq<Byte>)
    ensures Text([data]) == Lines(data) && Joined([data]) == data
  {
    hide Lines;
    var once := [data];
    assert |once[1..]| == 0 && Text(once[1..]) == "" && Joined(once[1..]) == [];
    assert Lines(data) + "" == Lines(data) && data + [] == data;
  }

  lemma Cancel(a: string, b: string, c: string)
    ensures a + c == b + c <==> a == b
  {
    if a + c == b + c {
      assert (a + c)[..|a|] == a && (b + c)[..|b|] == b;
    }
  }

  /** The image of the chunks is that of the same bytes read at once just when the chunks are aligned. */
  lemma ImageIff(chunks: seq<seq<Byte>>, byteCount: int)
    ensures Image(chunks, byteCount) == Image([Joined(chunks)], byteCount) <==> Aligned(chunks)
  {
    var data := Joined(chunks);
    var padding := Padding(Short(|data|, byteCount));
    TextIff(chunks);
    hide Padding, Aligned, Text, Lines, Joined;
    OnceText(data);
    Cancel(Text(chunks), Lines(data), padding);
  }
}
