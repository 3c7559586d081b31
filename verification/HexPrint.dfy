/** Printing records, and reading them back. */
module HexPrint {
  import opened Words
  import opened Image
  import opened Hex

  function Digit(v: nat, upper: bool): (c: Byte)
    requires v < 16
    ensures IsXDigit(c) && Nibble(c) == v && c != NEWLINE && c != 0
  {
    if v < 10 then 48 + v else if upper then 55 + v else 87 + v
  }

  /** Two digits a byte. */
  function Pairs(bytes: seq<Byte>, upper: bool): (r: seq<Byte>)
    ensures |r| == 2 * |bytes|
    ensures forall i :: 0 <= i < |r| ==>
            r[i] == (if i % 2 == 0 then Digit(bytes[i / 2] / 16, upper) else Digit(bytes[i / 2] % 16, upper))
  {
    seq(2 * |bytes|, i requires 0 <= i < 2 * |bytes| =>
      if i % 2 == 0 then Digit(bytes[i / 2] / 16, upper) else Digit(bytes[i / 2] % 16, upper))
  }

  /** A line with some head, digits and a newline. */
  function LineOf(head: seq<Byte>, bytes: seq<Byte>, upper: bool): seq<Byte>
  {
    head + Pairs(bytes, upper) + [NEWLINE]
  }

  predicate Plain(head: seq<Byte>)
  {
    forall i :: 0 <= i < |head| ==> head[i] != NEWLINE && head[i] != 0
  }

  lemma PairAt(head: seq<Byte>, bytes: seq<Byte>, upper: bool, i: nat)
    requires i < |bytes|
    ensures var line, at := LineOf(head, bytes, upper), |head| + 2 * i;
            && HexAt(line, at) == bytes[i] && HexByte(line, at) == bytes[i]
            && IsXDigit(Ch(line, at)) && IsXDigit(Ch(line, at + 1))
  {
    var line, at, p := LineOf(head, bytes, upper), |head| + 2 * i, Pairs(bytes, upper);
    assert line[at] == p[2 * i] == Digit(bytes[i] / 16, upper);
    assert line[at + 1] == p[2 * i + 1] == Digit(bytes[i] % 16, upper);
    hide Digit, Nibble, LineOf, Pairs;
  }

  lemma DataAtPairs(head: seq<Byte>, bytes: seq<Byte>, upper: bool, k: nat, n: nat)
    requires k + n <= |bytes|
    ensures DataAt(LineOf(head, bytes, upper), |head| + 2 * k, n) == bytes[k..k + n]
  {
    hide HexByte, LineOf;
    var line := LineOf(head, bytes, upper);
    var data, want := DataAt(line, |head| + 2 * k, n), bytes[k..k + n];
    forall i: nat | i < n
      ensures data[i] == want[i]
    {
      PairAt(head, bytes, upper, k + i);
      assert |head| + 2 * k + 2 * i == |head| + 2 * (k + i);
    }
  }

  lemma {:induction false} StrLenIs(line: seq<Byte>)
    requires forall i :: 0 <= i < |line| ==> line[i] != 0
    ensures StrLen(line) == |line|
  {
    if line != [] {
      StrLenIs(line[1..]);
    }
  }

  /** The printed characters: none ends the string, and only the last ends the line. */
  lemma LinePlain(head: seq<Byte>, bytes: seq<Byte>, upper: bool)
    requires Plain(head)
    ensures var line := LineOf(head, bytes, upper);
            && |line| == |head| + 2 * |bytes| + 1 && line[|line| - 1] == NEWLINE
            && (forall i :: 0 <= i < |line| ==> line[i] != 0)
            && (forall i :: 0 <= i < |line| - 1 ==> line[i] != NEWLINE)
            && StrLen(line) == |line|
  {
    var line, p := LineOf(head, bytes, upper), Pairs(bytes, upper);
    forall i | 0 <= i < |line| - 1
      ensures line[i] != 0 && line[i] != NEWLINE
    {
      if i >= |head| {
        assert line[i] == p[i - |head|];
      } else {
        assert line[i] == head[i];
      }
    }
    StrLenIs(line);
  }

  lemma {:induction false} LineLengthIs(line: seq<Byte>, rest: seq<Byte>, room: nat)
    requires line != [] && |line| <= room && line[|line| - 1] == NEWLINE
    requires forall i :: 0 <= i < |line| - 1 ==> line[i] != NEWLINE
    ensures LineLength(line + rest, room) == |line|
    decreases room
  {
    assert (line + rest)[0] == line[0];
    if |line| > 1 {
      assert (line + rest)[1..] == line[1..] + rest;
      LineLengthIs(line[1..], rest, room - 1);
    }
  }

  /** A printed line is read as one line. */
  lemma FirstLine(head: seq<Byte>, bytes: seq<Byte>, upper: bool, rest: seq<Byte>)
    requires Plain(head) && |head| + 2 * |bytes| + 1 <= MAX_LINE
    ensures var line := LineOf(head, bytes, upper); Lines(line + rest) == [line] + Lines(rest)
  {
    var line := LineOf(head, bytes, upper);
    LinePlain(head, bytes, upper);
    hide LineOf;
    LineLengthIs(line, rest, MAX_LINE);
    assert (line + rest)[..|line|] == line && (line + rest)[|line|..] == rest;
  }

  // ----- Intel HEX ----------------------------------------------------------------

  /** Data at an offset, or the high half of the addresses that follow. */
  datatype Record = DataRecord(offset: Half, data: seq<Byte>) | LinearRecord(high: Half)

  predicate Printable(r: Record)
  {
    r.DataRecord? ==> r.offset % 4 == 0 && |r.data| <= 16
  }

  function Kind(r: Record): Byte
  {
    if r.DataRecord? then 0 else 4
  }

  function Payload(r: Record): seq<Byte>
  {
    if r.DataRecord? then r.data else [r.high / 0x100, r.high % 0x100]
  }

  function OffsetOf(r: Record): Half
  {
    if r.DataRecord? then r.offset else 0
  }

  /** The bytes of a record before the checksum. */
  function Body(r: Record): seq<Byte>
    requires Printable(r)
  {
    [|Payload(r)|, OffsetOf(r) / 0x100, OffsetOf(r) % 0x100, Kind(r)] + Payload(r)
  }

  function Complement(x: int): Byte
  {
    CheckSum(0 - x)
  }

  /** All bytes; the checksum makes them add up to a multiple of 256. */
  function Whole(r: Record): seq<Byte>
    requires Printable(r)
  {
    Body(r) + [Complement(Sum(Body(r)))]
  }

  function PrintRecord(r: Record, upper: bool): seq<Byte>
    requires Printable(r)
  {
    LineOf([COLON], Whole(r), upper)
  }

  function Print(rs: seq<Record>, upper: bool): seq<Byte>
    requires forall i :: 0 <= i < |rs| ==> Printable(rs[i])
  {
    if rs == [] then [] else PrintRecord(rs[0], upper) + Print(rs[1..], upper)
  }

  /** What the records mean: bytes at addresses, in order. */
  function Meant(rs: seq<Record>, high: Half): seq<Store>
  {
    if rs == [] then []
    else
      match rs[0]
      case LinearRecord(h) => Meant(rs[1..], h)
      case DataRecord(offset, data) => StoresOf(0x1_0000 * high + offset, data) + Meant(rs[1..], high)
  }

  function HighAfter(rs: seq<Record>, high: Half): Half
  {
    if rs == [] then high else HighAfter(rs[1..], if rs[0].LinearRecord? then rs[0].high else high)
  }

  lemma {:induction false} SumConcat(a: seq<Byte>, b: seq<Byte>)
    ensures Sum(a + b) == Sum(a) + Sum(b)
    decreases |b|
  {
    if b == [] {
      assert a + b == a;
    } else {
      assert (a + b)[..|a + b| - 1] == a + b[..|b| - 1];
      SumConcat(a, b[..|b| - 1]);
    }
  }

  lemma SumSnoc(data: seq<Byte>, d: Byte)
    ensures Sum(data + [d]) == Sum(data) + d
  {
    assert (data + [d])[..|data|] == data;
  }

  lemma SumFour(a: Byte, b: Byte, c: Byte, d: Byte)
    ensures Sum([a, b, c, d]) == a + b + c + d
  {
    SumSnoc([], a);
    SumSnoc([a], b);
    SumSnoc([a, b], c);
    SumSnoc([a, b, c], d);
    assert [] + [a] == [a] && [a] + [b] == [a, b];
    assert [a, b] + [c] == [a, b, c] && [a, b, c] + [d] == [a, b, c, d];
    assert Sum([]) == 0;
    hide Sum;
  }

  lemma BodySums(r: Record)
    requires Printable(r)
    ensures CheckSum(Sum(Payload(r)) + (Kind(r) + |Payload(r)| + OffsetOf(r) / 0x100 + OffsetOf(r) % 0x100) +
                     Complement(Sum(Body(r)))) == 0
  {
    SumConcat([|Payload(r)|, OffsetOf(r) / 0x100, OffsetOf(r) % 0x100, Kind(r)], Payload(r));
    SumFour(|Payload(r)|, OffsetOf(r) / 0x100, OffsetOf(r) % 0x100, Kind(r));
    Cancels(Sum(Body(r)));
  }

  lemma Cancels(x: int)
    ensures CheckSum(x + Complement(x)) == 0
  {
  }

  /** The header of a printed record is read as it was printed. */
  lemma HeaderRead(r: Record, upper: bool)
    requires Printable(r)
    ensures var line := PrintRecord(r, upper);
            && Ch(line, 0) == COLON && HeaderDigits(line)
            && HexByte(line, 1) == |Payload(r)| && HexByte(line, 3) == OffsetOf(r) / 0x100
            && HexByte(line, 5) == OffsetOf(r) % 0x100 && HexByte(line, 7) == Kind(r)
  {
    hide HexByte, HexAt, IsXDigit, LineOf, CheckSum;
    var all := Whole(r);
    PairAt([COLON], all, upper, 0);
    PairAt([COLON], all, upper, 1);
    PairAt([COLON], all, upper, 2);
    PairAt([COLON], all, upper, 3);
    FirstCh([COLON], all, upper);
  }

  lemma FirstCh(head: seq<Byte>, bytes: seq<Byte>, upper: bool)
    ensures forall i: nat :: i < |head| ==> Ch(LineOf(head, bytes, upper), i) == head[i]
  {
  }

  /** So is the rest. */
  lemma RecordRead(r: Record, upper: bool, high: Half)
    requires Printable(r)
    ensures HexLine(PrintRecord(r, upper), high)
         == if r.DataRecord? then Data(StoresOf(0x1_0000 * high + r.offset, r.data)) else Linear(r.high)
  {
    hide HexByte, HexAt, LineOf, CheckSum, HeaderDigits, DataAt, StrLen, Sum, StoresOf, PrintRecord, Body, Complement;
    var line, n, all := PrintRecord(r, upper), |Payload(r)|, Whole(r);
    RecordIsLine(r, upper);
    HeaderRead(r, upper);
    BodyLength(r);
    LinePlain([COLON], all, upper);
    DataAtPairs([COLON], all, upper, 4, n);
    PairAt([COLON], all, upper, 4 + n);
    BodySums(r);
    OffsetParts(OffsetOf(r));
    assert HexLine(line, high) == HexRecord(line, high, Kind(r), n);
  }

  lemma OffsetParts(offset: Half)
    ensures 0x100 * (offset / 0x100) + offset % 0x100 == offset
  {
  }

  /** Printed records, whatever follows, are read back as what they mean. */
  lemma {:induction false} PrintedRead(rs: seq<Record>, upper: bool, high: Half, tail: seq<Byte>)
    requires forall i :: 0 <= i < |rs| ==> Printable(rs[i])
    ensures HexRun(Lines(Print(rs, upper) + tail), high) 
         == Prepend(Meant(rs, high), HexRun(Lines(tail), HighAfter(rs, high)))
  {
    hide HexLine, Lines, StoresOf, PrintRecord;
    if rs == [] {
      assert [] + tail == tail;
      PrependNothing(HexRun(Lines(tail), high));
    } else {
      var r, rest := rs[0], Print(rs[1..], upper) + tail;
      assert Print(rs, upper) + tail == PrintRecord(r, upper) + rest;
      RecordLine(r, upper, rest);
      RecordRead(r, upper, high);
      PrintedRead(rs[1..], upper, if r.LinearRecord? then r.high else high, tail);
      if r.DataRecord? {
        PrependTwice(StoresOf(0x1_0000 * high + r.offset, r.data), Meant(rs[1..], high),
                     HexRun(Lines(tail), HighAfter(rs[1..], high)));
      }
    }
  }

  lemma RecordLine(r: Record, upper: bool, rest: seq<Byte>)
    requires Printable(r)
    ensures var lines := Lines(PrintRecord(r, upper) + rest);
            lines != [] && lines[0] == PrintRecord(r, upper) && lines[1..] == Lines(rest)
  {
    hide Lines, LineOf, Body;
    BodyLength(r);
    FirstLine([COLON], Whole(r), upper, rest);
  }

  lemma BodyLength(r: Record)
    requires Printable(r)
    ensures |Body(r)| == 4 + |Payload(r)| <= 20 && Body(r)[4..] == Payload(r)
  {
  }

  /** The end record, and anything after it. */
  const END_RECORD: seq<Byte> := [0, 0, 0, 1, 0xFF]

  lemma EndRead(upper: bool, high: Half, tail: seq<Byte>)
    ensures HexRun(Lines(LineOf([COLON], END_RECORD, upper) + tail), high) == Reading(Done, [])
  {
    hide HexByte, HexAt, IsXDigit, LineOf, Lines;
    var line := LineOf([COLON], END_RECORD, upper);
    FirstLine([COLON], END_RECORD, upper, tail);
    PairAt([COLON], END_RECORD, upper, 0);
    PairAt([COLON], END_RECORD, upper, 1);
    PairAt([COLON], END_RECORD, upper, 2);
    PairAt([COLON], END_RECORD, upper, 3);
    FirstCh([COLON], END_RECORD, upper);
    assert HeaderDigits(line);
  }

  lemma EmptyFile()
    ensures forall junk | |junk| == BUFFER :: SrecRun(Lines([]), junk) == Reading(Done, [])
    ensures (forall h :: HexRun(Lines([]), h) == Reading(Done, []))
    ensures forall h :: Meant([], h) == []
  {
  }

  lemma RecordIsLine(r: Record, upper: bool)
    requires Printable(r)
    ensures PrintRecord(r, upper) == LineOf([COLON], Whole(r), upper)
  {
  }

  lemma BeginsWithColon(bytes: seq<Byte>, upper: bool, rest: seq<Byte>, junk: seq<Byte>)
    requires |junk| == BUFFER
    ensures SrecRun(Lines(LineOf([COLON], bytes, upper) + rest), junk).outcome == OtherFormat
  {
    var text := LineOf([COLON], bytes, upper) + rest;
    assert text[0] == COLON;
    assert Lines(text)[0] == text[..LineLength(text, MAX_LINE)];
    assert Ch(Lines(text)[0], 0) == COLON == Ch(Load(junk, Lines(text)[0]), 0);
  }

  lemma PrintIsOther(rs: seq<Record>, upper: bool, end: seq<Byte>, junk: seq<Byte>)
    requires |junk| == BUFFER && rs != [] && forall i :: 0 <= i < |rs| ==> Printable(rs[i])
    ensures SrecRun(Lines(Print(rs, upper) + end), junk).outcome == OtherFormat
  {
    hide Lines, LineOf, SrecRun, PrintRecord, Whole;
    RecordIsLine(rs[0], upper);
    BeginsWithColon(Whole(rs[0]), upper, Print(rs[1..], upper) + end, junk);
    assert Print(rs, upper) + end == PrintRecord(rs[0], upper) + (Print(rs[1..], upper) + end);
  }

  /** A file of printed records, ended by the end record or by the end of the file, is read
      back as the records' image. */
  lemma HexRoundTrip(rs: seq<Record>, upper: bool, ended: bool, tail: seq<Byte>, junk: seq<Byte>)
    requires |junk| == BUFFER && forall i :: 0 <= i < |rs| ==> Printable(rs[i])
    ensures FileRun(Print(rs, upper) + (if ended then LineOf([COLON], END_RECORD, upper) + tail else []), junk)
         == Reading(Done, Meant(rs, 0))
  {
    hide Lines, LineOf, HexRun, SrecRun, PrintRecord, Whole, Meant, HighAfter, END_RECORD;
    EmptyFile();
    var end := if ended then LineOf([COLON], END_RECORD, upper) + tail else [];
    var text := Print(rs, upper) + end;
    PrintedRead(rs, upper, 0, end);
    if ended {
      EndRead(upper, HighAfter(rs, 0), tail);
    }
    assert Meant(rs, 0) + [] == Meant(rs, 0);
    if rs != [] {
      PrintIsOther(rs, upper, end, junk);
    } else if ended {
      BeginsWithColon(END_RECORD, upper, tail, junk);
      assert text == LineOf([COLON], END_RECORD, upper) + tail;
    }
  }

  // ----- Aliases --------------------------------------------------------------------

  /** The same records with virtual addresses for physical ones. */
  function Virtual(rs: seq<Record>): (v: seq<Record>)
    requires Physical(rs)
    ensures |v| == |rs|
  {
    if rs == [] then []
    else [if rs[0].LinearRecord? then LinearRecord(rs[0].high + 0x8000) else rs[0]] + Virtual(rs[1..])
  }

  predicate Physical(rs: seq<Record>)
  {
    forall i :: 0 <= i < |rs| ==> if rs[i].LinearRecord? then rs[i].high < 0x7FFF else |rs[i].data| <= 16
  }

  /** A physical high half and the virtual one, or none given yet. */
  predicate SameWindow(high: Half, virtual: Half)
  {
    high < 0x7FFF && (virtual == high + 0x8000 || (high == 0 && virtual == 0))
  }

  /** Records for virtual addresses make the same image as those for physical ones. */
  lemma {:induction false} VirtualStores(rs: seq<Record>, high: Half, virtual: Half, before: seq<Store>,
                                         vbefore: seq<Store>, p: Place)
    requires Physical(rs) && SameWindow(high, virtual) && p != Nowhere
    requires Holds(before, p) == Holds(vbefore, p)
    ensures Holds(before + Meant(rs, high), p) == Holds(vbefore + Meant(Virtual(rs), virtual), p)
  {
    hide StoresOf, Last;
    if rs == [] {
      assert before + [] == before && vbefore + [] == vbefore;
    } else {
      assert Virtual(rs)[1..] == Virtual(rs[1..]);
      match rs[0]
      case LinearRecord(h) =>
        VirtualStores(rs[1..], h, h + 0x8000, before, vbefore, p);
      case DataRecord(offset, data) =>
        var a, v: Word := 0x1_0000 * high + offset, 0x1_0000 * virtual + offset;
        var x, y := StoresOf(a, data), StoresOf(v, data);
        HoldsMore(before, vbefore, a, v, data, p);
        VirtualStores(rs[1..], high, virtual, before + x, vbefore + y, p);
        assert before + x + Meant(rs[1..], high) == before + (x + Meant(rs[1..], high));
        assert vbefore + y + Meant(Virtual(rs[1..]), virtual) == vbefore + (y + Meant(Virtual(rs[1..]), virtual));
    }
  }

  /** So a file with virtual addresses makes the image of the same file with physical ones. */
  lemma VirtualSameImage(rs: seq<Record>, upper: bool, junk: seq<Byte>, p: Place)
    requires |junk| == BUFFER && Physical(rs) && p != Nowhere
    requires forall i :: 0 <= i < |rs| ==> Printable(rs[i])
    ensures forall i :: 0 <= i < |rs| ==> Printable(Virtual(rs)[i])
    ensures var r, v := FileRun(Print(rs, upper), junk), FileRun(Print(Virtual(rs), upper), junk);
            r.outcome == v.outcome == Done && Holds(r.stores, p) == Holds(v.stores, p)
  {
    VirtualPrintable(rs);
    VirtualStores(rs, 0, 0, [], [], p);
    HexRoundTrip(rs, upper, false, [], junk);
    HexRoundTrip(Virtual(rs), upper, false, [], junk);
    assert [] + Meant(rs, 0) == Meant(rs, 0) && [] + Meant(Virtual(rs), 0) == Meant(Virtual(rs), 0);
    assert Print(rs, upper) + [] == Print(rs, upper);
    assert Print(Virtual(rs), upper) + [] == Print(Virtual(rs), upper);
  }

  lemma {:induction false} VirtualPrintable(rs: seq<Record>)
    requires Physical(rs) && forall i :: 0 <= i < |rs| ==> Printable(rs[i])
    ensures forall i :: 0 <= i < |rs| ==> Printable(Virtual(rs)[i])
  {
    if rs != [] {
      VirtualPrintable(rs[1..]);
      var v := Virtual(rs);
      forall i | 0 <= i < |rs|
        ensures Printable(v[i])
      {
        if i > 0 {
          assert v[i] == Virtual(rs[1..])[i - 1];
        }
      }
    }
  }

  lemma HoldsMore(before: seq<Store>, vbefore: seq<Store>, a: Word, v: Word, data: seq<Byte>, p: Place)
    requires a + |data| <= 0x8000_0000 && (v == a + 0x8000_0000 || v == a) && Holds(before, p) == Holds(vbefore, p)
    ensures Holds(before + StoresOf(a, data), p) == Holds(vbefore + StoresOf(v, data), p)
  {
    hide StoresOf, Last;
    if v != a {
      SameStores(a, v, data, p);
    }
    LastConcat(before, StoresOf(a, data), p);
    LastConcat(vbefore, StoresOf(v, data), p);
  }

  lemma StoresSnoc(a: Word, data: seq<Byte>)
    requires data != []
    ensures var n := |data| - 1; StoresOf(a, data) == StoresOf(a, data[..n]) + [Store(Next(a, n), data[n] as bv8)]
  {
    hide Next;
  }

  lemma {:induction false} SameStores(a: Word, v: Word, data: seq<Byte>, p: Place)
    requires a + |data| <= 0x8000_0000 && v == a + 0x8000_0000
    ensures Last(StoresOf(a, data), p) == Last(StoresOf(v, data), p)
    decreases |data|
  {
    hide StoresOf, Next, Last, PlaceOf;
    if data != [] {
      var n := |data| - 1;
      StoresSnoc(a, data);
      StoresSnoc(v, data);
      SameStores(a, v, data[..n], p);
      NoCarry(a, n);
      NoCarry(v, n);
      Aliases(a + n);
      LastSnoc(StoresOf(a, data[..n]), Store(Next(a, n), data[n] as bv8));
      LastSnoc(StoresOf(v, data[..n]), Store(Next(v, n), data[n] as bv8));
    } else {
      NoStores(a);
      NoStores(v);
    }
  }

  lemma NoStores(a: Word)
    ensures StoresOf(a, []) == []
  {
  }

  lemma NoCarry(a: Word, n: nat)
    requires a + n < 0x1_0000_0000
    ensures Next(a, n) == a + n
  {
  }

  // ----- S-records ------------------------------------------------------------------

  /** An S-record that does not end the file: S0 to S6. Only S1, S2 and S3 have data; the
      checksum is not looked at. */
  datatype SRecord = SRecord(kind: Byte, address: Word, data: seq<Byte>, checksum: Byte)

  /** The address fits the form, and the line fits the reader's buffer. */
  predicate SPrintable(r: SRecord)
  {
    && 48 <= r.kind <= 54 && |r.data| + AddressBytes(r.kind) <= 124
    && (r.kind == 51 || r.address < (if r.kind == 50 then 0x100_0000 else 0x1_0000))
  }

  function AddressField(kind: Byte, address: Word): (f: seq<Byte>)
    ensures |f| == AddressBytes(kind)
  {
    var low := [address / 0x100 % 0x100, address % 0x100];
    if kind == 50 then [address / 0x1_0000 % 0x100] + low
    else if kind == 51 then [address / 0x100_0000, address / 0x1_0000 % 0x100] + low
    else low
  }

  function SWhole(r: SRecord): (b: seq<Byte>)
    requires SPrintable(r)
    ensures |b| == 2 + AddressBytes(r.kind) + |r.data|
  {
    [|r.data| + AddressBytes(r.kind) + 1] + AddressField(r.kind, r.address) + r.data + [r.checksum]
  }

  function PrintS(rs: seq<SRecord>, upper: bool): seq<Byte>
    requires forall i :: 0 <= i < |rs| ==> SPrintable(rs[i])
  {
    if rs == [] then [] else LineOf([LETTER_S, rs[0].kind], SWhole(rs[0]), upper) + PrintS(rs[1..], upper)
  }

  predicate HasData(r: SRecord)
  {
    49 <= r.kind <= 51
  }

  /** The form of a record that has data has no part in what it means. */
  function SMeant(rs: seq<SRecord>): seq<Store>
  {
    if rs == [] then []
    else (if HasData(rs[0]) then StoresOf(rs[0].address, rs[0].data) else []) + SMeant(rs[1..])
  }

  lemma OrByte(x: nat, b: Byte)
    ensures Or(x * 0x100, b) == x * 0x100 + b
  {
    hide Or;
    assert Pow2(8) == 0x100 by { assert Pow2(4) == 0x10; }
    OrDisjoint(x, 8, b);
  }

  lemma ShiftInByte(x: nat, b: Byte)
    requires x < 0x100_0000
    ensures ShiftIn(x, b) == 0x100 * x + b
  {
    hide Or;
    OrByte(x, b);
  }

  /** Shifting the bytes of an address in gives the address. */
  lemma ShiftsIn(b3: Byte, b2: Byte, b1: Byte, b0: Byte)
    ensures ShiftIn(ShiftIn(ShiftIn(ShiftIn(0, b3), b2), b1), b0) == LittleEndian(b0, b1, b2, b3)
    ensures ShiftIn(0, 0) == 0
  {
    hide ShiftIn;
    ShiftInByte(0, 0);
    ShiftInByte(0, b3);
    ShiftInByte(b3, b2);
    var x: nat := 0x100 * (b3 as int) + b2;
    ShiftInByte(x, b1);
    ShiftInByte(0x100 * x + b1, b0);
  }

  lemma AddressRead(r: SRecord, upper: bool)
    requires SPrintable(r)
    ensures AddressAt(LineOf([LETTER_S, r.kind], SWhole(r), upper), AddressBytes(r.kind)) == r.address
  {
    hide HexAt, HexByte, IsXDigit, LineOf, ShiftIn, LittleEndian, ByteOf;
    var head, all, a := [LETTER_S, r.kind], SWhole(r), r.address;
    var n := AddressBytes(r.kind);
    PairAt(head, all, upper, 1);
    PairAt(head, all, upper, 2);
    AddressSteps(LineOf(head, all, upper));
    ShiftsIn(ByteOf(a, 3), ByteOf(a, 2), ByteOf(a, 1), ByteOf(a, 0));
    BytesRoundTrip(a);
    AddressBytesAre(r);
    if n >= 3 {
      PairAt(head, all, upper, 3);
    }
    if n == 4 {
      PairAt(head, all, upper, 4);
    }
  }

  /** The address field, low byte last, and the bytes that a short form leaves out. */
  lemma AddressBytesAre(r: SRecord)
    requires SPrintable(r)
    ensures var n := AddressBytes(r.kind);
            && (forall k: nat :: k < n ==> SWhole(r)[n - k] == ByteOf(r.address, k))
            && (forall k: nat :: n <= k < 4 ==> ByteOf(r.address, k) == 0)
  {
  }

  /** What is read from within a line does not depend on what the buffer had before. */
  lemma SameAt(buf: seq<Byte>, line: seq<Byte>, i: nat)
    requires |buf| == BUFFER && |line| <= MAX_LINE && i + 1 <= |line|
    ensures Ch(Load(buf, line), i) == Ch(line, i)
    ensures HexAt(Load(buf, line), i) == HexAt(line, i) && HexByte(Load(buf, line), i) == HexByte(line, i)
  {
    hide Load, Nibble;
    assert Load(buf, line)[i] == Ch(line, i) && Load(buf, line)[i + 1] == Ch(line, i + 1);
  }

  lemma SameData(buf: seq<Byte>, line: seq<Byte>, from: nat, n: nat)
    requires |buf| == BUFFER && |line| <= MAX_LINE && from + 2 * n <= |line|
    ensures DataAt(Load(buf, line), from, n) == DataAt(line, from, n)
  {
    hide Load, HexByte;
    forall i: nat | i < n
      ensures DataAt(Load(buf, line), from, n)[i] == DataAt(line, from, n)[i]
    {
      SameAt(buf, line, from + 2 * i);
    }
  }

  lemma {:induction false} SameAddress(buf: seq<Byte>, line: seq<Byte>, n: nat)
    requires |buf| == BUFFER && |line| <= MAX_LINE && 3 + 2 * n <= |line|
    ensures AddressAt(Load(buf, line), n) == AddressAt(line, n)
  {
    hide Load, HexAt, ShiftIn;
    if n > 0 {
      SameAddress(buf, line, n - 1);
      SameAt(buf, line, 2 + 2 * n);
    }
  }

  lemma SRecordRead(r: SRecord, upper: bool, buf: seq<Byte>)
    requires SPrintable(r) && |buf| == BUFFER
    ensures var line := LineOf([LETTER_S, r.kind], SWhole(r), upper);
            && |line| <= MAX_LINE
            && SrecLine(Load(buf, line)) == if HasData(r) then Data(StoresOf(r.address, r.data)) else Skip
  {
    hide HexAt, HexByte, IsXDigit, LineOf, AddressAt, DataAt, StoresOf, Load;
    var head, all, a := [LETTER_S, r.kind], SWhole(r), AddressBytes(r.kind);
    var line := LineOf(head, all, upper);
    SLength(r, upper);
    FirstCh(head, all, upper);
    assert Ch(line, 0) == head[0] && Ch(line, 1) == head[1];
    PairAt(head, all, upper, 0);
    AddressRead(r, upper);
    DataAtPairs(head, all, upper, 1 + a, |r.data|);
    assert all[1 + a..1 + a + |r.data|] == r.data;
    SameAt(buf, line, 0);
    SameAt(buf, line, 1);
    SameAt(buf, line, 2);
    SameAt(buf, line, 3);
    SameAddress(buf, line, a);
    SameData(buf, line, 4 + 2 * a, |r.data|);
  }

  lemma SLength(r: SRecord, upper: bool)
    requires SPrintable(r)
    ensures |LineOf([LETTER_S, r.kind], SWhole(r), upper)| == 7 + 2 * (AddressBytes(r.kind) + |r.data|) <= MAX_LINE
  {
  }

  /** S-records in any mixture of forms, whatever follows, are read back as what they mean. */
  lemma {:induction false} PrintedSRead(rs: seq<SRecord>, upper: bool, tail: seq<Byte>, buf: seq<Byte>)
    returns (after: seq<Byte>)
    requires |buf| == BUFFER && forall i :: 0 <= i < |rs| ==> SPrintable(rs[i])
    ensures |after| == BUFFER
    ensures SrecRun(Lines(PrintS(rs, upper) + tail), buf) == Prepend(SMeant(rs), SrecRun(Lines(tail), after))
    decreases |rs|
  {
    hide SrecLine, Lines, StoresOf, SWhole, LineOf, Load;
    if rs == [] {
      after := buf;
      assert PrintS(rs, upper) + tail == tail;
      PrependNothing(SrecRun(Lines(tail), buf));
    } else {
      var head, all, rest := [LETTER_S, rs[0].kind], SWhole(rs[0]), PrintS(rs[1..], upper) + tail;
      var line := LineOf(head, all, upper);
      assert PrintS(rs, upper) + tail == line + rest;
      SLength(rs[0], upper);
      FirstLine(head, all, upper, rest);
      SRecordRead(rs[0], upper, buf);
      after := PrintedSRead(rs[1..], upper, tail, Load(buf, line));
      assert Lines(line + rest)[1..] == Lines(rest);
      PrependTwice(StoresOf(rs[0].address, rs[0].data), SMeant(rs[1..]), SrecRun(Lines(tail), after));
      assert [] + SMeant(rs[1..]) == SMeant(rs[1..]);
    }
  }

  /** An S7, S8 or S9 record ends the reading; nothing else on its line and after it is
      looked at. */
  lemma EndSRead(kind: Byte, rest: seq<Byte>, buf: seq<Byte>)
    requires |buf| == BUFFER && 55 <= kind <= 57
    ensures SrecRun(Lines([LETTER_S, kind] + rest), buf) == Reading(Done, [])
  {
    hide LineLength, Load;
    var text := [LETTER_S, kind] + rest;
    var line := text[..LineLength(text, MAX_LINE)];
    assert Lines(text)[0] == line;
    TwoCharacters(text);
    assert Ch(Load(buf, line), 0) == LETTER_S && Ch(Load(buf, line), 1) == kind;
  }

  lemma TwoCharacters(text: seq<Byte>)
    requires |text| >= 2 && text[0] != NEWLINE
    ensures LineLength(text, MAX_LINE) >= 2
  {
    assert LineLength(text, MAX_LINE) == 1 + LineLength(text[1..], MAX_LINE - 1);
  }

  /** A file of S-records in any mixture of forms, ended by a record or by the end of the file,
      is read back as what the records mean. */
  lemma SrecRoundTrip(rs: seq<SRecord>, upper: bool, ended: bool, kind: Byte, rest: seq<Byte>, junk: seq<Byte>)
    requires |junk| == BUFFER && 55 <= kind <= 57 && forall i :: 0 <= i < |rs| ==> SPrintable(rs[i])
    ensures FileRun(PrintS(rs, upper) + (if ended then [LETTER_S, kind] + rest else []), junk)
         == Reading(Done, SMeant(rs))
  {
    hide Lines, SrecRun, HexRun, SMeant, PrintS;
    EmptyFile();
    var tail := if ended then [LETTER_S, kind] + rest else [];
    var after := PrintedSRead(rs, upper, tail, junk);
    if ended {
      EndSRead(kind, rest, after);
    }
    assert SMeant(rs) + [] == SMeant(rs);
  }

  /** Records other than S3 have no effect on any image: the addresses of S1 and S2 are below
      both windows. */
  lemma {:induction false} ShortFormsStoreNothing(before: seq<Store>, rs: seq<SRecord>, p: Place)
    requires forall i :: 0 <= i < |rs| ==> SPrintable(rs[i]) && rs[i].kind != 51
    requires p != Nowhere
    ensures Holds(before + SMeant(rs), p) == Holds(before, p)
    decreases |rs|
  {
    hide StoresOf, Last, PlaceOf, AddressBytes;
    if rs == [] {
      assert before + [] == before;
    } else {
      var x := if HasData(rs[0]) then StoresOf(rs[0].address, rs[0].data) else [];
      LowStores(rs[0].address, rs[0].data, p);
      NothingLast(p);
      LastConcat(before, x, p);
      ShortFormsStoreNothing(before + x, rs[1..], p);
      assert before + x + SMeant(rs[1..]) == before + (x + SMeant(rs[1..]));
    }
  }

  lemma {:induction false} LowStores(a: Word, data: seq<Byte>, p: Place)
    requires a + |data| <= FLASHP_BASE && p != Nowhere
    ensures Last(StoresOf(a, data), p) == None
    decreases |data|
  {
    hide StoresOf, Next, Last, PlaceOf;
    if data != [] {
      var n := |data| - 1;
      StoresSnoc(a, data);
      LowStores(a, data[..n], p);
      NoCarry(a, n);
      Aliases(a + n);
      LastSnoc(StoresOf(a, data[..n]), Store(Next(a, n), data[n] as bv8));
    } else {
      NoStores(a);
      NothingLast(p);
    }
  }

  lemma NothingLast(p: Place)
    ensures Last([], p) == None
  {
  }

  // ----- Literally ------------------------------------------------------------------

  function Text(s: string): (text: seq<Byte>)
    requires forall i :: 0 <= i < |s| ==> s[i] < 128 as char
  {
    seq(|s|, i requires 0 <= i < |s| => s[i] as int)
  }

  /** The digits are the usual ones. */
  lemma DigitIs(v: nat, upper: bool)
    requires v < 16
    ensures Digit(v, upper) == (if upper then "0123456789ABCDEF" else "0123456789abcdef")[v] as int
  {
  }

  /** A file of each kind, character by character: one byte for the start of flash. */
  lemma ExampleSrec(junk: seq<Byte>)
    requires |junk| == BUFFER
    ensures FileRun(Text("S3061D00000011CB\n"), junk) == Reading(Done, [Store(0x1D00_0000, 0x11)])
  {
    hide FileRun, Text, LineOf;
    var r := SRecord(51, 0x1D00_0000, [0x11], 0xCB);
    assert SWhole(r) == [6, 0x1D, 0, 0, 0, 0x11, 0xCB];
    SrecLineIs();
    SrecRoundTrip([r], true, false, 55, [], junk);
    assert PrintS([r][1..], true) == [] && PrintS([r], true) + [] == Text("S3061D00000011CB\n");
    assert SMeant([r][1..]) == [];
    assert SMeant([r]) == StoresOf(r.address, r.data) == [Store(0x1D00_0000, 0x11)];
  }

  lemma SrecLineIs()
    ensures LineOf([LETTER_S, 51], [6, 0x1D, 0, 0, 0, 0x11, 0xCB], true) == Text("S3061D00000011CB\n")
  {
  }

  lemma ExampleHex(junk: seq<Byte>)
    requires |junk| == BUFFER
    ensures FileRun(Text(":020000041D00DD\n") + Text(":0100000011EE\n"), junk)
         == Reading(Done, [Store(0x1D00_0000, 0x11)])
  {
    hide FileRun, Text, LineOf, StoresOf, Body, Whole, Print, Meant, PrintRecord;
    var linear, data := LinearRecord(0x1D00), DataRecord(0, [0x11]);
    ExampleBytes();
    LinearLineIs();
    DataLineIs();
    RecordIsLine(linear, true);
    RecordIsLine(data, true);
    TwoRecords(0x1D00, [0x11]);
    HexRoundTrip([linear, data], true, false, [], junk);
    OneStore();
  }

  lemma TwoRecords(high: Half, bytes: seq<Byte>)
    requires |bytes| <= 16
    ensures var linear, data := LinearRecord(high), DataRecord(0, bytes);
            && Print([linear, data], true) + [] == PrintRecord(linear, true) + PrintRecord(data, true)
            && Meant([linear, data], 0) == StoresOf(0x1_0000 * high, bytes)
  {
    hide PrintRecord, StoresOf;
    var linear, data := LinearRecord(high), DataRecord(0, bytes);
    assert [linear, data][1..] == [data] && [data][1..] == [];
    assert Print([], true) == [] && Print([data], true) == PrintRecord(data, true) + [];
    assert Meant([], high) == [] && Meant([data], high) == StoresOf(0x1_0000 * high, bytes) + [];
    assert Meant([linear, data], 0) == Meant([data], high);
  }

  lemma OneStore()
    ensures StoresOf(0x1D00_0000, [0x11]) == [Store(0x1D00_0000, 0x11)]
  {
  }

  lemma ExampleBytes()
    ensures Whole(LinearRecord(0x1D00)) == [2, 0, 0, 4, 0x1D, 0, 0xDD]
    ensures Whole(DataRecord(0, [0x11])) == [1, 0, 0, 0, 0x11, 0xEE]
  {
    SumFour(2, 0, 0, 4);
    SumFour(1, 0, 0, 0);
    SumSnoc([2, 0, 0, 4], 0x1D);
    SumSnoc([2, 0, 0, 4, 0x1D], 0);
    SumSnoc([1, 0, 0, 0], 0x11);
    hide Sum;
    assert Body(LinearRecord(0x1D00)) == [2, 0, 0, 4, 0x1D] + [0] && [2, 0, 0, 4] + [0x1D] == [2, 0, 0, 4, 0x1D];
    assert Body(DataRecord(0, [0x11])) == [1, 0, 0, 0] + [0x11];
  }

  lemma LinearLineIs()
    ensures LineOf([COLON], [2, 0, 0, 4, 0x1D, 0, 0xDD], true) == Text(":020000041D00DD\n")
  {
  }

  lemma DataLineIs()
    ensures LineOf([COLON], [1, 0, 0, 0, 0x11, 0xEE], true) == Text(":0100000011EE\n")
  {
  }
}
