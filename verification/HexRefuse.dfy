/** What the HEX reader refuses: records as lists of bytes, good and bad. */
module HexRefuse {
  import opened Words
  import opened Image
  import opened Hex
  import opened HexPrint

  /** A record of some bytes, printed in digits, is good if it has all that its first byte
      counts, no more than 16 of them, an aligned offset, a sum of zero, and a known type.
      What follows the checksum is not looked at. */
  predicate Good(b: seq<Byte>)
    requires |b| >= 4
  {
    && b[0] + 5 <= |b| && b[0] <= 16 && b[2] % 4 == 0 && Sum(b[..b[0] + 5]) % 0x100 == 0
    && (b[3] == 0 || (b[3] == 4 && b[0] == 2))
  }

  /** Types that are not checked: the end record and the start address. */
  predicate Unchecked(b: seq<Byte>)
    requires |b| >= 4
  {
    b[3] == 1 || b[3] == 5
  }

  predicate Refuses(m: Meaning)
  {
    m == Stop(Bad) || m == Stop(Overflow)
  }

  lemma HeaderOf(b: seq<Byte>, upper: bool)
    requires |b| >= 4
    ensures var line := LineOf([COLON], b, upper);
            && Ch(line, 0) == COLON && HeaderDigits(line)
            && HexByte(line, 1) == b[0] && HexByte(line, 3) == b[1] && HexByte(line, 5) == b[2]
            && HexByte(line, 7) == b[3]
  {
    hide HexByte, HexAt, IsXDigit, LineOf;
    PairAt([COLON], b, upper, 0);
    PairAt([COLON], b, upper, 1);
    PairAt([COLON], b, upper, 2);
    PairAt([COLON], b, upper, 3);
    FirstCh([COLON], b, upper);
  }

  /** The sum that the reader forms. */
  lemma SumOfParts(b: seq<Byte>)
    requires |b| >= 4 && b[0] + 5 <= |b|
    ensures var n := b[0];
            Sum(b[..n + 5]) == Sum(b[4..4 + n]) + (b[3] as int + n as int + b[1] as int + b[2] as int) + b[4 + n]
  {
    var n := b[0];
    var head, data, last := [b[0], b[1], b[2], b[3]], b[4..4 + n], b[4 + n];
    assert b[..n + 5] == head + data + [last];
    SumSnoc(head + data, last);
    SumConcat(head, data);
    SumFour(b[0], b[1], b[2], b[3]);
  }

  /** The number of two bytes, high byte first. */
  function Both(high: Byte, low: Byte): Half
  {
    0x100 * (high as int) + low
  }

  lemma BothParts(high: Byte, low: Byte)
    ensures var x := Both(high, low); x / 0x100 == high && x % 0x100 == low && x % 4 == low % 4
  {
    var h, q, r: int := high, low / 4, low % 4;
    assert Both(high, low) == 4 * (0x40 * h + q) + r;
  }

  /** What a line of any bytes means. */
  lemma BytesMean(b: seq<Byte>, upper: bool, high: Half)
    requires 4 <= |b| <= 126
    ensures var m := HexLine(LineOf([COLON], b, upper), high);
            && (b[3] == 1 ==> m == Stop(Done)) && (b[3] == 5 ==> m == Skip)
            && (!Unchecked(b) ==>
                  if !Good(b) then Refuses(m)
                  else if b[3] == 4 then m == Linear(Both(b[4], b[5]))
                  else m == Data(StoresOf(0x1_0000 * high + Both(b[1], b[2]), b[4..4 + b[0]])))
  {
    hide HexByte, HexAt, LineOf, HeaderDigits, DataAt, StrLen, Sum, StoresOf, HexRecord, Good;
    HeaderOf(b, upper);
    RecordMeans(b, upper, high);
  }

  /** What is read from the line. */
  lemma PartsOf(b: seq<Byte>, upper: bool)
    requires 4 <= |b|
    ensures var line, n := LineOf([COLON], b, upper), b[0];
            && StrLen(line) == 2 * |b| + 2
            && (n + 5 <= |b| ==> DataAt(line, 9, n) == b[4..4 + n] && HexAt(line, 9 + 2 * n) == b[4 + n])
  {
    hide HexByte, HexAt, LineOf, DataAt, StrLen;
    var n: nat := b[0];
    LinePlain([COLON], b, upper);
    if n + 5 <= |b| {
      DataAtPairs([COLON], b, upper, 4, n);
      PairAt([COLON], b, upper, 4 + n);
    }
  }

  /** The sum that the reader forms is zero. */
  predicate Sums(line: seq<Byte>, kind: Byte, n: Byte, low: Half)
  {
    var header := kind as int + n as int + low / 0x100 + low % 0x100;
    CheckSum(Sum(DataAt(line, 9, n)) + header + HexAt(line, 9 + 2 * n)) == 0
  }

  /** That is so when all bytes add up to a multiple of 256. */
  lemma ChecksSum(b: seq<Byte>, upper: bool)
    requires |b| >= 4 && b[0] + 5 <= |b|
    ensures Sums(LineOf([COLON], b, upper), b[3], b[0], Both(b[1], b[2])) <==> Sum(b[..b[0] as int + 5]) % 0x100 == 0
  {
    hide Sum, Both, LineOf, HexAt, DataAt, StrLen;
    PartsOf(b, upper);
    SumOfParts(b);
    BothParts(b[1], b[2]);
  }

  /** The checks of a record, one after the other. */
  lemma RecordIs(line: seq<Byte>, high: Half, kind: Byte, n: Byte, low: Half)
    requires low == 0x100 * HexByte(line, 3) + HexByte(line, 5)
    ensures var m, data := HexRecord(line, high, kind, n), DataAt(line, 9, n);
            if kind == 1 then m == Stop(Done)
            else if kind == 5 then m == Skip
            else if StrLen(line) < 2 * n + 11 || low % 4 != 0 then m == Stop(Bad)
            else if n > 16 then m == Stop(Overflow)
            else if !Sums(line, kind, n, low) || !(kind == 0 || (kind == 4 && n == 2)) then m == Stop(Bad)
            else if kind == 4 then m == Linear(Both(data[0], data[1]))
            else m == Data(StoresOf(0x1_0000 * high + low, data))
  {
    hide HexByte, HexAt, DataAt, StrLen, Sum, StoresOf, CheckSum;
  }

  lemma RecordMeans(b: seq<Byte>, upper: bool, high: Half)
    requires 4 <= |b| <= 126
    ensures var m := HexRecord(LineOf([COLON], b, upper), high, b[3], b[0]);
            && (b[3] == 1 ==> m == Stop(Done)) && (b[3] == 5 ==> m == Skip)
            && (!Unchecked(b) ==>
                  if !Good(b) then Refuses(m)
                  else if b[3] == 4 then m == Linear(Both(b[4], b[5]))
                  else m == Data(StoresOf(0x1_0000 * high + Both(b[1], b[2]), b[4..4 + b[0]])))
  {
    hide HexByte, HexAt, LineOf, HeaderDigits, DataAt, StrLen, Sum, StoresOf, HexRecord, Sums, Both;
    var line, low := LineOf([COLON], b, upper), Both(b[1], b[2]);
    HeaderLow(b, upper);
    RecordIs(line, high, b[3], b[0], low);
    PartsOf(b, upper);
    if b[0] + 5 <= |b| {
      ChecksSum(b, upper);
      if b[0] == 2 {
        assert b[4..4 + b[0]] == [b[4], b[5]];
      }
    }
  }

  lemma HeaderLow(b: seq<Byte>, upper: bool)
    requires |b| >= 4
    ensures var line, low := LineOf([COLON], b, upper), Both(b[1], b[2]);
            low == 0x100 * HexByte(line, 3) + HexByte(line, 5) && low % 4 == b[2] % 4
  {
    hide HexByte, LineOf;
    HeaderOf(b, upper);
    BothParts(b[1], b[2]);
  }

  // ----- Files --------------------------------------------------------------------

  /** A line that the reader refuses stops it, whatever was printed before and whatever
      follows. */
  lemma StopsThere(rs: seq<Record>, upper: bool, tail: seq<Byte>, junk: seq<Byte>, outcome: Outcome)
    requires |junk| == BUFFER && forall i :: 0 <= i < |rs| ==> Printable(rs[i])
    requires tail != [] && tail[0] == COLON && HexLine(Lines(tail)[0], HighAfter(rs, 0)) == Stop(outcome)
    ensures FileRun(Print(rs, upper) + tail, junk).outcome == outcome
  {
    hide HexLine, SrecRun, Meant, HighAfter, LineLength;
    PrintedRead(rs, upper, 0, tail);
    if rs == [] {
      assert Print(rs, upper) + tail == tail;
      ColonIsOther(tail, junk);
    } else {
      PrintIsOther(rs, upper, tail, junk);
    }
  }

  lemma ColonIsOther(text: seq<Byte>, junk: seq<Byte>)
    requires |junk| == BUFFER && text != [] && text[0] == COLON
    ensures SrecRun(Lines(text), junk).outcome == OtherFormat
  {
    assert Lines(text)[0] == text[..LineLength(text, MAX_LINE)];
    assert Ch(Lines(text)[0], 0) == COLON == Ch(Load(junk, Lines(text)[0]), 0);
  }

  /** A record that is not good is refused, wherever in a file it is: with a wrong checksum,
      too short for its count, at an unaligned offset, of an unknown type, or too long for the
      reader's buffer. */
  lemma BadRecordRefused(rs: seq<Record>, upper: bool, b: seq<Byte>, tail: seq<Byte>, junk: seq<Byte>)
    requires |junk| == BUFFER && forall i :: 0 <= i < |rs| ==> Printable(rs[i])
    requires |b| >= 4 && !Unchecked(b) && !Good(b) && (|b| <= 126 || b[0] > 16)
    ensures FileRun(Print(rs, upper) + (LineOf([COLON], b, upper) + tail), junk).outcome in {Bad, Overflow}
  {
    hide HexLine, Lines, LineOf, FileRun, HighAfter, Good, Printable, Print;
    var text, high := LineOf([COLON], b, upper) + tail, HighAfter(rs, 0);
    LineRefused(b, upper, tail, high);
    StopsThere(rs, upper, text, junk, HexLine(Lines(text)[0], high).outcome);
  }

  lemma LineRefused(b: seq<Byte>, upper: bool, tail: seq<Byte>, high: Half)
    requires |b| >= 4 && !Unchecked(b) && !Good(b) && (|b| <= 126 || b[0] > 16)
    ensures var text := LineOf([COLON], b, upper) + tail;
            && text != [] && text[0] == COLON && Lines(text) != [] && Refuses(HexLine(Lines(text)[0], high))
  {
    hide HexLine, Good, Pairs;
    var line := LineOf([COLON], b, upper);
    assert line[0] == COLON;
    hide Lines, LineOf;
    FirstPiece(line + tail);
    if |b| <= 126 {
      FirstLine([COLON], b, upper, tail);
      BytesMean(b, upper, high);
    } else {
      LongRefused(b, upper, tail, high);
    }
  }

  /** A line longer than the reader takes at once: its first piece is refused. */
  lemma LongRefused(b: seq<Byte>, upper: bool, tail: seq<Byte>, high: Half)
    requires |b| > 126 && b[0] > 16 && !Unchecked(b)
    ensures Refuses(HexLine(Lines(LineOf([COLON], b, upper) + tail)[0], high))
  {
    var line := LineOf([COLON], b, upper);
    HeaderOf(b, upper);
    LinePlain([COLON], b, upper);
    hide LineOf, StrLen, DataAt, Sum, CheckSum, Lines;
    var text := line + tail;
    LongLine(text, MAX_LINE);
    var piece := text[..MAX_LINE];
    assert Lines(text)[0] == piece by { FirstPiece(text); }
    assert forall i: nat :: i < 9 ==> Ch(piece, i) == Ch(line, i);
    SameHeader(piece, line);
  }

  lemma FirstPiece(text: seq<Byte>)
    requires text != []
    ensures Lines(text) != [] && Lines(text)[0] == text[..LineLength(text, MAX_LINE)]
  {
  }

  lemma SameHeader(x: seq<Byte>, y: seq<Byte>)
    requires forall i: nat :: i < 9 ==> Ch(x, i) == Ch(y, i)
    ensures HeaderDigits(x) == HeaderDigits(y)
    ensures HexByte(x, 1) == HexByte(y, 1) && HexByte(x, 3) == HexByte(y, 3)
    ensures HexByte(x, 5) == HexByte(y, 5) && HexByte(x, 7) == HexByte(y, 7)
  {
    hide Ch, Nibble, IsXDigit;
  }

  lemma {:induction false} LongLine(text: seq<Byte>, room: nat)
    requires room < |text| && forall i :: 0 <= i < room ==> text[i] != NEWLINE
    ensures LineLength(text, room) == room
    decreases room
  {
    if room > 0 {
      LongLine(text[1..], room - 1);
    }
  }

  /** Changing one byte of a list changes its sum by as much. */
  lemma SumChanged(b: seq<Byte>, k: nat, v: Byte)
    requires k < |b|
    ensures Sum(b[k := v]) == Sum(b) - b[k] + v
  {
    assert b == b[..k] + [b[k]] + b[k + 1..];
    assert b[k := v] == b[..k] + [v] + b[k + 1..];
    SumConcat(b[..k] + [b[k]], b[k + 1..]);
    SumConcat(b[..k] + [v], b[k + 1..]);
    SumSnoc(b[..k], b[k]);
    SumSnoc(b[..k], v);
  }

  lemma SumsApart(x: nat, from: Byte, to: Byte)
    requires x % 0x100 == 0 && from != to && x - from + to >= 0
    ensures (x - from + to) % 0x100 != 0
  {
    var q := x / 0x100;
    assert x == 0x100 * q;
  }

  /** One byte of a printed record changed, other than its count or its type: the file is
      refused. */
  lemma ChangedByteRefused(rs: seq<Record>, upper: bool, r: Record, k: nat, v: Byte, tail: seq<Byte>, junk: seq<Byte>)
    requires |junk| == BUFFER && Printable(r) && forall i :: 0 <= i < |rs| ==> Printable(rs[i])
    requires k < |Whole(r)| && k != 0 && k != 3 && v != Whole(r)[k]
    ensures var b := Whole(r)[k := v];
            FileRun(Print(rs, upper) + (LineOf([COLON], b, upper) + tail), junk).outcome in {Bad, Overflow}
  {
    hide Sum, LineOf, FileRun, Print, Complement;
    var all := Whole(r);
    var b := all[k := v];
    WholeSums(r);
    BodyLength(r);
    SumChanged(all, k, v);
    SumsApart(Sum(all), all[k], v);
    assert b[0] == |Payload(r)| && b[3] == Kind(r);
    assert b[..b[0] + 5] == b;
    BadRecordRefused(rs, upper, b, tail, junk);
  }

  /** The bytes of a printed record add up to a multiple of 256. */
  lemma WholeSums(r: Record)
    requires Printable(r)
    ensures Sum(Whole(r)) % 0x100 == 0
  {
    hide Sum, Body;
    SumSnoc(Body(r), Complement(Sum(Body(r))));
    Cancels(Sum(Body(r)));
  }

  /** A line that does not begin with a colon and eight digits is refused. */
  lemma BadHeaderRefused(rs: seq<Record>, upper: bool, rest: seq<Byte>, i: nat, junk: seq<Byte>)
    requires |junk| == BUFFER && forall i :: 0 <= i < |rs| ==> Printable(rs[i])
    requires i < 8 && (i < |rest| ==> !IsXDigit(rest[i]))
    ensures FileRun(Print(rs, upper) + ([COLON] + rest), junk).outcome == Bad
  {
    hide Lines, FileRun, HighAfter, LineLength, IsXDigit;
    var tail := [COLON] + rest;
    FirstPiece(tail);
    var line := Lines(tail)[0];
    NoDigit();
    assert !IsXDigit(Ch(line, i + 1));
    StopsThere(rs, upper, tail, junk, Bad);
  }

  /** So is an S-record, other than an end record, whose count is not two digits. */
  lemma BadCountRefused(rs: seq<SRecord>, upper: bool, kind: Byte, rest: seq<Byte>, i: nat, junk: seq<Byte>)
    requires |junk| == BUFFER && forall i :: 0 <= i < |rs| ==> SPrintable(rs[i])
    requires !(55 <= kind <= 57) && kind != NEWLINE && i < |rest| && i < 2 && !IsXDigit(rest[i])
    requires rest[0] != NEWLINE
    ensures FileRun(PrintS(rs, upper) + ([LETTER_S, kind] + rest), junk).outcome == Bad
  {
    hide LineLength, IsXDigit, SrecRun, PrintS, SMeant, Load;
    var tail := [LETTER_S, kind] + rest;
    var after := PrintedSRead(rs, upper, tail, junk);
    FirstPiece(tail);
    var line := Lines(tail)[0];
    FourCharacters(tail);
    var now := Load(after, line);
    assert Ch(now, 0) == LETTER_S && Ch(now, 1) == kind && Ch(now, 2 + i) == rest[i];
    StopsSrec(Lines(tail), after, Bad);
  }

  lemma StopsSrec(lines: seq<seq<Byte>>, buf: seq<Byte>, outcome: Outcome)
    requires |buf| == BUFFER && lines != [] && forall i :: 0 <= i < |lines| ==> |lines[i]| <= MAX_LINE
    requires SrecLine(Load(buf, lines[0])) == Stop(outcome)
    ensures SrecRun(lines, buf) == Reading(outcome, [])
  {
  }

  lemma FourCharacters(text: seq<Byte>)
    requires |text| >= 3 && text[0] != NEWLINE && text[1] != NEWLINE && text[2] != NEWLINE
    ensures LineLength(text, MAX_LINE) >= 3 && (|text| >= 4 ==> LineLength(text, MAX_LINE) >= 4)
  {
    assert LineLength(text, MAX_LINE) == 1 + LineLength(text[1..], MAX_LINE - 1);
    assert LineLength(text[1..], MAX_LINE - 1) == 1 + LineLength(text[1..][1..], MAX_LINE - 2);
    assert LineLength(text[1..][1..], MAX_LINE - 2) == 1 + LineLength(text[1..][1..][1..], MAX_LINE - 3);
  }

  lemma NoDigit()
    ensures !IsXDigit(0)
  {
  }
}
