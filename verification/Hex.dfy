/** Reading Intel HEX and Motorola S-record files into the image. */
module Hex {
  import opened Words
  import opened Image

  // ----- Characters -----------------------------------------------------------------

  const NEWLINE: Byte := 10
  const COLON: Byte := 58
  const LETTER_S: Byte := 83
  /** The longest piece of a line read at once, and the buffer it is read into. */
  const MAX_LINE: nat := 255
  const BUFFER: nat := 256

  /** A character of a line; past its end there is the terminator. */
  function Ch(line: seq<Byte>, i: nat): Byte
  {
    if i < |line| then line[i] else 0
  }

  predicate IsDigit(c: Byte)
  {
    48 <= c <= 57
  }

  predicate IsXDigit(c: Byte)
  {
    IsDigit(c) || 65 <= c <= 70 || 97 <= c <= 102
  }

  function ToLower(c: Byte): Byte
  {
    if 65 <= c <= 90 then c + 32 else c
  }

  /** Value of a digit; other characters have values of their own. */
  function Nibble(c: Byte): int
  {
    if IsDigit(c) then c - 48 else ToLower(c) + 10 - 97
  }

  function HexAt(line: seq<Byte>, i: nat): int
  {
    16 * Nibble(Ch(line, i)) + Nibble(Ch(line, i + 1))
  }

  /** The same, kept in a byte. */
  function HexByte(line: seq<Byte>, i: nat): Byte
  {
    HexAt(line, i) % 0x100
  }

  /** Characters before the first terminator. */
  function StrLen(line: seq<Byte>): (n: nat)
    ensures n <= |line|
  {
    if line == [] || line[0] == 0 then 0 else 1 + StrLen(line[1..])
  }

  /** Length of the first line of a text, with its newline, or of the piece of it that fits. */
  function LineLength(text: seq<Byte>, room: nat): (n: nat)
    ensures n <= |text| && n <= room && (text != [] && room > 0 ==> n > 0)
    decreases room
  {
    if text == [] || room == 0 then 0
    else if text[0] == NEWLINE then 1
    else 1 + LineLength(text[1..], room - 1)
  }

  function Lines(text: seq<Byte>): (lines: seq<seq<Byte>>)
    ensures forall i :: 0 <= i < |lines| ==> |lines[i]| <= MAX_LINE
  {
    if text == [] then []
    else var n := LineLength(text, MAX_LINE); [text[..n]] + Lines(text[n..])
  }

  /** The buffer after a line is read into it: what an earlier line left behind the terminator
      is still there. */
  function Load(buf: seq<Byte>, line: seq<Byte>): (now: seq<Byte>)
    requires |buf| == BUFFER && |line| <= MAX_LINE
    ensures |now| == BUFFER
    ensures forall i: nat :: i <= |line| ==> now[i] == Ch(line, i)
    ensures forall i: nat :: |line| < i < BUFFER ==> now[i] == buf[i]
  {
    line + [0] + buf[|line| + 1..]
  }

  // ----- What a reader does -----------------------------------------------------------

  /** The reader's result: the file is of another format, is bad, was read, or has a record
      longer than the reader's buffer. */
  datatype Outcome = OtherFormat | Bad | Done | Overflow

  datatype Reading = Reading(outcome: Outcome, stores: seq<Store>)

  function Prepend(stores: seq<Store>, r: Reading): Reading
  {
    Reading(r.outcome, stores + r.stores)
  }

  function Next(address: Word, n: nat): Word
  {
    (address + n) % 0x1_0000_0000
  }

  /** Consecutive bytes from an address on. */
  function StoresOf(address: Word, data: seq<Byte>): (stores: seq<Store>)
    ensures |stores| == |data|
    ensures forall i :: 0 <= i < |data| ==> stores[i] == Store(Next(address, i), data[i] as bv8)
  {
    seq(|data|, i requires 0 <= i < |data| => Store(Next(address, i), data[i] as bv8))
  }

  function Sum(data: seq<Byte>): nat
  {
    if data == [] then 0 else Sum(data[..|data| - 1]) + data[|data| - 1]
  }

  /** The `n` bytes whose digits start at position `from`. */
  function DataAt(line: seq<Byte>, from: nat, n: nat): (data: seq<Byte>)
    ensures |data| == n
  {
    seq(n, i requires 0 <= i < n => HexByte(line, from + 2 * i))
  }

  // ----- Intel HEX ----------------------------------------------------------------

  /** What one line means. */
  datatype Meaning = Skip | Stop(outcome: Outcome) | Linear(high: Half) | Data(stores: seq<Store>)

  function HexLine(line: seq<Byte>, high: Half): Meaning
  {
    if Ch(line, 0) == NEWLINE then Skip
    else if Ch(line, 0) != COLON then Stop(OtherFormat)
    else if !HeaderDigits(line) then Stop(Bad)
    else HexRecord(line, high, HexByte(line, 7), HexByte(line, 1))
  }

  predicate HeaderDigits(line: seq<Byte>)
  {
    forall i: nat :: 1 <= i <= 8 ==> IsXDigit(Ch(line, i))
  }

  function HexRecord(line: seq<Byte>, high: Half, kind: Byte, n: Byte): Meaning
  {
    var low := 0x100 * HexByte(line, 3) + HexByte(line, 5);
    var data := DataAt(line, 9, n);
    if kind == 1 then Stop(Done)
    else if kind == 5 then Skip
    else if StrLen(line) < 2 * n + 11 then Stop(Bad)
    else if low % 4 != 0 then Stop(Bad)
    else if n > 16 then Stop(Overflow)
    else if CheckSum(Sum(data) + (kind + n + low / 0x100 + low % 0x100) + HexAt(line, 9 + 2 * n)) != 0 then Stop(Bad)
    else if kind == 4 then if n != 2 then Stop(Bad) else Linear(0x100 * (data[0] as int) + data[1])
    else if kind != 0 then Stop(Bad)
    else Data(StoresOf(0x1_0000 * high + low, data))
  }

  function HexRun(lines: seq<seq<Byte>>, high: Half): Reading
  {
    if lines == [] then Reading(Done, [])
    else
      match HexLine(lines[0], high)
      case Skip => HexRun(lines[1..], high)
      case Stop(outcome) => Reading(outcome, [])
      case Linear(h) => HexRun(lines[1..], h)
      case Data(stores) => Prepend(stores, HexRun(lines[1..], high))
  }

  // ----- S-records ------------------------------------------------------------------

  /** Bytes of address in a record of some type. */
  function AddressBytes(kind: Byte): nat
  {
    if kind == 51 then 4 else if kind == 50 then 3 else 2
  }

  /** Shift a byte into an address; the value of characters that are no digits may be
      anything. */
  function ShiftIn(address: Word, x: int): Word
  {
    Or(address * 0x100 % 0x1_0000_0000, x % 0x1_0000_0000) % 0x1_0000_0000
  }

  function AddressAt(line: seq<Byte>, n: nat): Word
  {
    if n == 0 then 0 else ShiftIn(AddressAt(line, n - 1), HexAt(line, 2 + 2 * n))
  }

  /** Digits that a record takes, the checksum aside; the line may be shorter. */
  function SrecEnd(buf: seq<Byte>): int
  {
    4 + 2 * (HexAt(buf, 2) - 1)
  }

  /** What the buffer means once a line has been read into it. A record whose digits would go
      beyond the buffer overflows. */
  function SrecLine(buf: seq<Byte>): Meaning
  {
    if Ch(buf, 0) == NEWLINE then Skip
    else if Ch(buf, 0) != LETTER_S then Stop(OtherFormat)
    else if 55 <= Ch(buf, 1) <= 57 then Stop(Done)
    else if !IsXDigit(Ch(buf, 2)) || !IsXDigit(Ch(buf, 3)) then Stop(Bad)
    else if 49 <= Ch(buf, 1) <= 51 then
      var a := AddressBytes(Ch(buf, 1));
      var n := HexAt(buf, 2) - 1 - a;
      if SrecEnd(buf) > BUFFER then Stop(Overflow)
      else Data(StoresOf(AddressAt(buf, a), DataAt(buf, 4 + 2 * a, if n < 0 then 0 else n)))
    else Skip
  }

  /** `buf` is the reader's buffer before the first of the lines. */
  function SrecRun(lines: seq<seq<Byte>>, buf: seq<Byte>): Reading
    requires |buf| == BUFFER && forall i :: 0 <= i < |lines| ==> |lines[i]| <= MAX_LINE
    decreases |lines|
  {
    if lines == [] then Reading(Done, [])
    else
      var now := Load(buf, lines[0]);
      match SrecLine(now)
      case Skip => SrecRun(lines[1..], now)
      case Stop(outcome) => Reading(outcome, [])
      case Linear(_) => SrecRun(lines[1..], now)
      case Data(stores) => Prepend(stores, SrecRun(lines[1..], now))
  }

  // ----- The readers ----------------------------------------------------------------

  /** The image that a reader fills. */
  class Reader {
    const image: Image

    constructor (image: Image)
      ensures this.image == image
    {
      this.image := image;
    }

    /** Store consecutive bytes. */
    method StoreAll(address: Word, data: seq<Byte>, ghost stores: seq<Store>)
      requires image.Shows(stores)
      modifies image, image.boot, image.flash
      ensures image.Shows(stores + StoresOf(address, data))
    {
      hide Image.Shows, Image.Valid, StoresOf;
      ghost var all := StoresOf(address, data);
      var a: Word := address;
      var i := 0;
      assert stores + all[..0] == stores;
      NextStarts(address);
      while i < |data|
        invariant 0 <= i <= |data| && a == Next(address, i) && image.Shows(stores + all[..i])
      {
        assert all[i] == Store(a, data[i] as bv8);
        assert stores + all[..i] + [all[i]] == stores + all[..i + 1];
        image.StoreData(a, data[i] as bv8, stores + all[..i]);
        NextAgain(address, i);
        a := Next(a, 1);
        i := i + 1;
      }
      assert all[..|data|] == all;
    }

    /** One line of a HEX file. `verdict` is the result of the reader if it stops there. */
    method ReadHexLine(buf: seq<Byte>, high: Half, ghost stores: seq<Store>)
      returns (verdict: Option<Outcome>, newHigh: Half, ghost added: seq<Store>)
      requires image.Shows(stores)
      modifies image, image.boot, image.flash
      ensures image.Shows(stores + added)
      ensures match HexLine(buf, high)
              case Skip => verdict == None && newHigh == high && added == []
              case Stop(outcome) => verdict == Some(outcome) && added == []
              case Linear(h) => verdict == None && newHigh == h && added == []
              case Data(more) => verdict == None && newHigh == high && added == more
    {
      hide Image.Shows, Image.Valid, StoresOf, DataAt, StrLen, HexByte, HexAt, IsXDigit, HexRecord;
      newHigh, added := high, [];
      assert stores + [] == stores;
      if Ch(buf, 0) == NEWLINE {
        return None, high, [];
      }
      if Ch(buf, 0) != COLON {
        return Some(OtherFormat), high, [];
      }
      var k := 1;
      while k <= 8
        invariant 1 <= k <= 9 && forall i: nat :: 1 <= i < k ==> IsXDigit(Ch(buf, i))
      {
        if !IsXDigit(Ch(buf, k)) {
          return Some(Bad), high, [];
        }
        k := k + 1;
      }
      verdict, newHigh, added := ReadRecord(buf, high, HexByte(buf, 7), HexByte(buf, 1), stores);
    }

    method ReadRecord(buf: seq<Byte>, high: Half, kind: Byte, bytes: Byte, ghost stores: seq<Store>)
      returns (verdict: Option<Outcome>, newHigh: Half, ghost added: seq<Store>)
      requires image.Shows(stores)
      modifies image, image.boot, image.flash
      ensures image.Shows(stores + added)
      ensures match HexRecord(buf, high, kind, bytes)
              case Skip => verdict == None && newHigh == high && added == []
              case Stop(outcome) => verdict == Some(outcome) && added == []
              case Linear(h) => verdict == None && newHigh == h && added == []
              case Data(more) => verdict == None && newHigh == high && added == more
    {
      hide Image.Shows, Image.Valid, StoresOf, DataAt, StrLen, HexByte, HexAt, Sum, CheckSum;
      verdict, newHigh, added := None, high, [];
      assert stores + [] == stores;
      if kind == 1 {
        return Some(Done), high, [];
      }
      if kind == 5 {
        return;
      }
      if StrLen(buf) < 2 * bytes + 11 {
        return Some(Bad), high, [];
      }
      var low := 0x100 * HexByte(buf, 3) + HexByte(buf, 5);
      var address := 0x1_0000 * high + low;
      HighIsMultiple(high, low);
      if address % 4 != 0 {
        return Some(Bad), high, [];
      }
      if bytes > 16 {
        return Some(Overflow), high, [];
      }
      var data := new Byte[16];
      var sum := ReadData(buf, bytes, data);
      var last := HexAt(buf, 9 + 2 * bytes);
      if CheckSum(sum + kind + bytes + address % 0x100 + address / 0x100 % 0x100) != CheckSum(-last) {
        SumsDiffer(Sum(data[..bytes]), kind + bytes + low / 0x100 + low % 0x100, HexAt(buf, 9 + 2 * bytes));
        return Some(Bad), high, [];
      }
      SumsDiffer(Sum(data[..bytes]), kind + bytes + low / 0x100 + low % 0x100, HexAt(buf, 9 + 2 * bytes));
      if kind == 4 {
        if bytes != 2 {
          return Some(Bad), high, [];
        }
        assert data[..bytes][0] == data[0] && data[..bytes][1] == data[1];
        newHigh := 0x100 * (data[0] as int) + data[1];
        return;
      }
      if kind != 0 {
        return Some(Bad), high, [];
      }
      StoreAll(address, data[..bytes], stores);
      added := StoresOf(address, DataAt(buf, 9, bytes));
    }

    /** The data bytes of a record, and their sum. */
    method ReadData(buf: seq<Byte>, n: nat, data: array<Byte>) returns (sum: Byte)
      requires n <= data.Length
      modifies data
      ensures data[..n] == DataAt(buf, 9, n) && sum == CheckSum(Sum(data[..n]))
    {
      hide HexByte, CheckSum;
      SumNothing();
      sum := 0;
      var i := 0;
      while i < n
        invariant 0 <= i <= n && data[..i] == DataAt(buf, 9, i) && sum == CheckSum(Sum(data[..i]))
      {
        data[i] := HexByte(buf, 9 + i + i);
        assert data[..i + 1] == data[..i] + [data[i]];
        assert data[..i + 1][..i] == data[..i];
        SumMore(Sum(data[..i]), data[i]);
        sum := CheckSum(sum + data[i]);
        i := i + 1;
      }
    }

    /** Read a HEX file. */
    method ReadHex(text: seq<Byte>, ghost stores: seq<Store>) returns (outcome: Outcome)
      requires image.Shows(stores)
      modifies image, image.boot, image.flash
      ensures var r := HexRun(Lines(text), 0); outcome == r.outcome && image.Shows(stores + r.stores)
    {
      hide Image.Shows, Image.Valid, HexLine;
      var rest, high: Half := text, 0;
      ghost var done: seq<Store> := [];
      assert stores + done == stores;
      while rest != []
        invariant HexRun(Lines(text), 0) == Prepend(done, HexRun(Lines(rest), high))
        invariant image.Shows(stores + done)
        decreases |rest|
      {
        var buf := rest[..LineLength(rest, MAX_LINE)];
        ghost var h, lines := high, Lines(rest);
        rest := rest[|buf|..];
        assert lines[0] == buf && lines[1..] == Lines(rest);
        var verdict;
        ghost var added;
        verdict, high, added := ReadHexLine(buf, high, stores + done);
        assert stores + done + added == stores + (done + added);
        if verdict.Some? {
          assert done + [] == done;
          return verdict.value;
        }
        PrependTwice(done, added, HexRun(Lines(rest), high));
        PrependNothing(HexRun(Lines(rest), high));
        done := done + added;
      }
      assert done + [] == done;
      outcome := Done;
    }

    /** One line of an S-record file. */
    method ReadSrecLine(buf: seq<Byte>, ghost stores: seq<Store>)
      returns (verdict: Option<Outcome>, ghost added: seq<Store>)
      requires image.Shows(stores)
      modifies image, image.boot, image.flash
      ensures image.Shows(stores + added)
      ensures match SrecLine(buf)
              case Skip => verdict == None && added == []
              case Stop(outcome) => verdict == Some(outcome) && added == []
              case Linear(_) => false
              case Data(more) => verdict == None && added == more
    {
      hide Image.Shows, Image.Valid, StoresOf, DataAt, HexByte, HexAt, IsXDigit, AddressAt, ShiftIn;
      verdict, added := None, [];
      assert stores + [] == stores;
      if Ch(buf, 0) == NEWLINE {
        return;
      }
      if Ch(buf, 0) != LETTER_S {
        return Some(OtherFormat), [];
      }
      if Ch(buf, 1) == 55 || Ch(buf, 1) == 56 || Ch(buf, 1) == 57 {
        return Some(Done), [];
      }
      if !IsXDigit(Ch(buf, 2)) || !IsXDigit(Ch(buf, 3)) {
        return Some(Bad), [];
      }
      if Ch(buf, 1) == 51 || Ch(buf, 1) == 50 || Ch(buf, 1) == 49 {
        var bytes := HexAt(buf, 2) - 1;
        var at: nat := 4;
        var address: Word := 0;
        AddressSteps(buf);
        if Ch(buf, 1) == 51 {
          address := ShiftIn(0, HexAt(buf, at));
          at := at + 2;
          bytes := bytes - 1;
        }
        if Ch(buf, 1) == 51 || Ch(buf, 1) == 50 {
          address := ShiftIn(address, HexAt(buf, at));
          at := at + 2;
          bytes := bytes - 1;
        }
        address := ShiftIn(address, HexAt(buf, at));
        at := at + 2;
        address := ShiftIn(address, HexAt(buf, at));
        at := at + 2;
        bytes := bytes - 2;
        // A record that is too long for the buffer is not read any further.
        if 4 + 2 * (HexAt(buf, 2) - 1) > BUFFER {
          return Some(Overflow), [];
        }
        var data := Bytes(buf, at, if bytes < 0 then 0 else bytes);
        StoreAll(address, data, stores);
        added := StoresOf(address, data);
      }
    }

    method Bytes(buf: seq<Byte>, from: nat, n: nat) returns (data: seq<Byte>)
      ensures data == DataAt(buf, from, n)
    {
      hide HexByte;
      data := [];
      var i := 0;
      while i < n
        invariant 0 <= i <= n && data == DataAt(buf, from, i)
      {
        data := data + [HexByte(buf, from + 2 * i)];
        i := i + 1;
      }
    }

    /** Read an S-record file. `junk` is what the buffer contains at first. */
    method ReadSrec(text: seq<Byte>, junk: seq<Byte>, ghost stores: seq<Store>) returns (outcome: Outcome)
      requires image.Shows(stores) && |junk| == BUFFER
      modifies image, image.boot, image.flash
      ensures var r := SrecRun(Lines(text), junk); outcome == r.outcome && image.Shows(stores + r.stores)
    {
      hide Image.Shows, Image.Valid, SrecLine, Load;
      var rest, buf := text, junk;
      ghost var done: seq<Store> := [];
      assert stores + done == stores;
      while rest != []
        invariant |buf| == BUFFER && SrecRun(Lines(text), junk) == Prepend(done, SrecRun(Lines(rest), buf))
        invariant image.Shows(stores + done)
        decreases |rest|
      {
        var line := rest[..LineLength(rest, MAX_LINE)];
        ghost var lines := Lines(rest);
        buf := Load(buf, line);
        rest := rest[|line|..];
        assert lines[0] == line && lines[1..] == Lines(rest);
        var verdict;
        ghost var added;
        verdict, added := ReadSrecLine(buf, stores + done);
        assert stores + done + added == stores + (done + added);
        if verdict.Some? {
          assert done + [] == done;
          return verdict.value;
        }
        PrependTwice(done, added, SrecRun(Lines(rest), buf));
        PrependNothing(SrecRun(Lines(rest), buf));
        done := done + added;
      }
      assert done + [] == done;
      outcome := Done;
    }

    /** Read a file of either format, as the program does before it goes on to program. */
    method ReadFile(text: seq<Byte>, junk: seq<Byte>) returns (ok: bool, outcome: Outcome)
      requires image.Shows([]) && |junk| == BUFFER
      modifies image, image.boot, image.flash
      ensures outcome == FileRun(text, junk).outcome && (ok <==> outcome == Done)
      ensures ok ==> image.Shows(FileRun(text, junk).stores)
    {
      hide Image.Shows, Image.Valid, HexRun, SrecRun, Lines;
      ghost var s, h := SrecRun(Lines(text), junk), HexRun(Lines(text), 0);
      outcome := ReadSrec(text, junk, []);
      assert [] + s.stores == s.stores;
      if outcome == OtherFormat {
        outcome := ReadHex(text, [] + s.stores);
        if outcome == Done {
          OneReaderOnly(Lines(text), junk);
          assert [] + s.stores + h.stores == h.stores;
        }
      }
      ok := outcome == Done;
    }
  }

  /** The reading of a file: as S-records, or if it is not that, as HEX. `junk` is what the
      first reader's buffer contains before it reads anything. */
  function FileRun(text: seq<Byte>, junk: seq<Byte>): Reading
    requires |junk| == BUFFER
  {
    var s := SrecRun(Lines(text), junk);
    if s.outcome == OtherFormat then HexRun(Lines(text), 0) else s
  }

  /** When the first reader passes a file on and the second takes it, the first has stored
      nothing. */
  lemma {:induction false} OneReaderOnly(lines: seq<seq<Byte>>, buf: seq<Byte>)
    requires |buf| == BUFFER && forall i :: 0 <= i < |lines| ==> |lines[i]| <= MAX_LINE
    requires SrecRun(lines, buf).outcome == OtherFormat && HexRun(lines, 0).outcome == Done
    ensures SrecRun(lines, buf).stores == []
    decreases |lines|
  {
    hide HexRecord, StoresOf, DataAt, AddressAt;
    if lines != [] {
      var now := Load(buf, lines[0]);
      assert Ch(now, 0) == Ch(lines[0], 0);
      if Ch(lines[0], 0) == NEWLINE {
        OneReaderOnly(lines[1..], now);
      }
    }
  }

  lemma AddressSteps(buf: seq<Byte>)
    ensures AddressAt(buf, 2) == ShiftIn(ShiftIn(0, HexAt(buf, 4)), HexAt(buf, 6))
    ensures AddressAt(buf, 3) == ShiftIn(AddressAt(buf, 2), HexAt(buf, 8))
    ensures AddressAt(buf, 4) == ShiftIn(AddressAt(buf, 3), HexAt(buf, 10))
  {
    hide HexAt, ShiftIn;
    assert AddressAt(buf, 1) == ShiftIn(AddressAt(buf, 0), HexAt(buf, 4));
  }

  /** A sum kept in a byte. */
  function CheckSum(x: int): Byte
  {
    x % 0x100
  }

  lemma SumMore(x: int, d: int)
    ensures CheckSum(CheckSum(x) + d) == CheckSum(x + d)
  {
  }

  lemma SumNothing()
    ensures CheckSum(Sum([])) == 0
  {
  }

  lemma SumsDiffer(x: int, y: int, c: int)
    ensures CheckSum(CheckSum(x) + y) == CheckSum(-c) <==> CheckSum(x + y + c) == 0
  {
    SumMore(x, y);
  }

  lemma HighIsMultiple(high: Half, low: Half)
    ensures var address := 0x1_0000 * high + low;
            && address < 0x1_0000_0000 && (address % 4 == 0 <==> low % 4 == 0)
            && address % 0x100 == low % 0x100 && address / 0x100 % 0x100 == low / 0x100
  {
    var q, r := low / 0x100, low % 0x100;
    assert 0x1_0000 * high + low == 0x100 * (0x100 * high + q) + r;
    LowByteOf(0x100 * high + q, r);
    LowByteOf(high, q);
    LowQuarter(0x4000 * high, low / 4, low % 4);
    LowQuarter(0, low / 4, low % 4);
  }

  lemma LowByteOf(x: nat, r: nat)
    requires r < 0x100
    ensures (0x100 * x + r) / 0x100 == x && (0x100 * x + r) % 0x100 == r
  {
  }

  lemma LowQuarter(x: nat, y: nat, r: nat)
    requires r < 4
    ensures (4 * x + 4 * y + r) % 4 == r
  {
    assert 4 * x + 4 * y + r == 4 * (x + y) + r;
  }

  lemma NextStarts(a: Word)
    ensures Next(a, 0) == a
  {
  }

  lemma NextAgain(a: Word, i: nat)
    ensures Next(Next(a, i), 1) == Next(a, i + 1)
  {
  }

  lemma PrependTwice(a: seq<Store>, b: seq<Store>, r: Reading)
    ensures Prepend(a, Prepend(b, r)) == Prepend(a + b, r)
  {
    assert a + (b + r.stores) == a + b + r.stores;
  }

  lemma PrependNothing(r: Reading)
    ensures Prepend([], r) == r
  {
    assert [] + r.stores == r.stores;
  }
}
