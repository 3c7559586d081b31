/** CRC-16 with generator x^16 + x^12 + x^5 + 1 (section 2 of ITU-T V.41), most significant
    bit first: the host's nibble table, the executive's byte table, and what a comparison
    of two checksums can and cannot tell. */
module Crc {

  const POLYNOMIAL: bv16 := 0x1021

  function Top(r: bv16): bool
  {
    r & 0x8000 != 0
  }

  function Shl(r: bv16): bv16
  {
    r << 1
  }

  /** One bit into the register. */
  function Shift(r: bv16, b: bool): bv16
  {
    Add(Shl(r), Feedback(Top(r) != b))
  }

  function Feedback(b: bool): bv16
  {
    if b then POLYNOMIAL else 0
  }

  /** Addition over GF(2). */
  function Add(r: bv16, s: bv16): bv16
  {
    r ^ s
  }

  /** The register after a sequence of bits: the reference definition. */
  function CrcBits(r: bv16, bits: seq<bool>): bv16
    decreases |bits|
  {
    if bits == [] then r else CrcBits(Shift(r, bits[0]), bits[1..])
  }

  /** The bits of a byte, most significant first. */
  function ByteBits(d: bv8): (bits: seq<bool>)
    ensures |bits| == 8
  {
    [ Has(d, 0x80), Has(d, 0x40), Has(d, 0x20), Has(d, 0x10),
      Has(d, 0x08), Has(d, 0x04), Has(d, 0x02), Has(d, 0x01) ]
  }

  function Has(d: bv8, mask: bv8): bool
  {
    d & mask != 0
  }

  function Bits(data: seq<bv8>): (bits: seq<bool>)
    ensures |bits| == 8 * |data|
    decreases |data|
  {
    if data == [] then [] else ByteBits(data[0]) + Bits(data[1..])
  }

  function CrcOf(r: bv16, data: seq<bv8>): bv16
  {
    CrcBits(r, Bits(data))
  }

  lemma {:induction false} CrcConcat(r: bv16, a: seq<bool>, b: seq<bool>)
    ensures CrcBits(r, a + b) == CrcBits(CrcBits(r, a), b)
    decreases |a|
  {
    hide Shift;
    if a == [] {
      assert a + b == b;
    } else {
      assert (a + b)[1..] == a[1..] + b;
      CrcConcat(Shift(r, a[0]), a[1..], b);
    }
  }

  lemma {:induction false} BitsConcat(a: seq<bv8>, b: seq<bv8>)
    ensures Bits(a + b) == Bits(a) + Bits(b)
    decreases |a|
  {
    if a == [] {
      assert a + b == b;
    } else {
      assert (a + b)[1..] == a[1..] + b;
      BitsConcat(a[1..], b);
    }
  }

  /** The checksum of a message in two pieces. */
  lemma CrcSplits(r: bv16, a: seq<bv8>, b: seq<bv8>)
    ensures CrcOf(r, a + b) == CrcOf(CrcOf(r, a), b)
  {
    BitsConcat(a, b);
    CrcConcat(r, Bits(a), Bits(b));
  }

  // ----- The host's nibble table ------------------------------------------------

  const CRC_TABLE: seq<bv16> :=
    [ 0x0000, 0x1021, 0x2042, 0x3063, 0x4084, 0x50a5, 0x60c6, 0x70e7,
      0x8108, 0x9129, 0xa14a, 0xb16b, 0xc18c, 0xd1ad, 0xe1ce, 0xf1ef ]

  /** Four bits into the register. */
  function Shift4(r: bv16, b3: bool, b2: bool, b1: bool, b0: bool): bv16
  {
    Shift(Shift(Shift(Shift(r, b3), b2), b1), b0)
  }

  function Spread(i: bv16): bv16
  {
    i << 12
  }

  /** Four bits, given as a nibble. */
  function NibbleShift(r: bv16, n: bv16): bv16
  {
    Shift4(r, Has16(n, 8), Has16(n, 4), Has16(n, 2), Has16(n, 1))
  }

  function Has16(n: bv16, mask: bv16): bool
  {
    n & mask != 0
  }

  lemma TableIsShift(i: bv16)
    requires i < 16
    ensures i as int < 16 && CRC_TABLE[i as int] == Shift4(Spread(i), false, false, false, false)
  {
  }

  /** Four bits by way of the table. */
  function ByTable(r: bv16, n: bv16): bv16
  {
    Add(Shift4(Meet(r, n), false, false, false, false), Up4(r))
  }

  /** The top nibble of the register with a nibble of the message. */
  function Meet(r: bv16, n: bv16): bv16
  {
    ((r >> 12) ^ n) << 12
  }

  function Up4(r: bv16): bv16
  {
    r << 4
  }

  function Low12(r: bv16): bv16
  {
    r & 0x0FFF
  }

  /** Four bits into a sum of registers. */
  lemma Shift4Linear(r: bv16, s: bv16, b3: bool, b2: bool, b1: bool, b0: bool)
    ensures Shift4(Add(r, s), b3, b2, b1, b0) == Add(Shift4(r, false, false, false, false), Shift4(s, b3, b2, b1, b0))
  {
    hide Shift, Add;
    ShiftLinear(r, s, false, b3);
    var r1, s1 := Shift(r, false), Shift(s, b3);
    ShiftLinear(r1, s1, false, b2);
    var r2, s2 := Shift(r1, false), Shift(s1, b2);
    ShiftLinear(r2, s2, false, b1);
    ShiftLinear(Shift(r2, false), Shift(s2, b1), false, b0);
  }

  /** Without feedback a shift is a shift. */
  lemma PlainShift(r: bv16)
    requires !Top(r)
    ensures Shift(r, false) == Shl(r)
  {
  }

  lemma LowShifts(r: bv16)
    ensures var low := Low12(r); !Top(low) && !Top(Shl(low)) && !Top(Shl(Shl(low))) && !Top(Shl(Shl(Shl(low))))
    ensures Shl(Shl(Shl(Shl(Low12(r))))) == Up4(r)
  {
  }

  /** The low twelve bits only move. */
  lemma LowMoves(r: bv16)
    ensures Shift4(Low12(r), false, false, false, false) == Up4(r)
  {
    var low := Low12(r);
    LowShifts(r);
    hide Shift, Top, Shl, Low12, Up4;
    PlainShift(low);
    PlainShift(Shl(low));
    PlainShift(Shl(Shl(low)));
    PlainShift(Shl(Shl(Shl(low))));
  }

  /** A nibble meets itself at the top, bit after bit. */
  lemma NibbleCancels(n: bv16)
    requires n < 16
    ensures Shift4(Spread(n), Has16(n, 8), Has16(n, 4), Has16(n, 2), Has16(n, 1)) == 0
  {
    CancelBit(Spread(n), Has16(n, 8));
    CancelBit(n << 13, Has16(n, 4));
    CancelBit(n << 14, Has16(n, 2));
    CancelBit(n << 15, Has16(n, 1));
    NibbleTops(n);
    hide Shift, Top, Shl, Has16, Spread;
  }

  lemma CancelBit(r: bv16, b: bool)
    requires Top(r) == b
    ensures Shift(r, b) == Shl(r)
  {
  }

  lemma NibbleTops(n: bv16)
    requires n < 16
    ensures Top(Spread(n)) == Has16(n, 8) && Top(n << 13) == Has16(n, 4)
    ensures Top(n << 14) == Has16(n, 2) && Top(n << 15) == Has16(n, 1)
    ensures Shl(Spread(n)) == n << 13 && Shl(n << 13) == n << 14 && Shl(n << 14) == n << 15 && Shl(n << 15) == 0
  {
  }

  lemma TopParts(r: bv16, n: bv16)
    requires n < 16
    ensures Add(Low12(r), Add(Meet(r, n), Spread(n))) == r
  {
  }

  lemma NibbleStep(r: bv16, n: bv16)
    requires n < 16
    ensures ByTable(r, n) == NibbleShift(r, n)
  {
    hide Shift4, Add, Meet, Up4, Low12, Spread, Has16;
    var top := Meet(r, n);
    var b3, b2, b1, b0 := Has16(n, 8), Has16(n, 4), Has16(n, 2), Has16(n, 1);
    TopParts(r, n);
    Shift4Linear(Low12(r), Add(top, Spread(n)), b3, b2, b1, b0);
    Shift4Linear(top, Spread(n), b3, b2, b1, b0);
    NibbleCancels(n);
    LowMoves(r);
    var t := Shift4(top, false, false, false, false);
    AddZero(t);
    AddCommutes(Up4(r), t);
  }

  function TableEntry(i: bv16): bv16
    requires i < 16
  {
    TableIsShift(i);
    CRC_TABLE[i as int]
  }

  /** One nibble on the host's 32-bit accumulator; only the low 16 bits mean anything. */
  function HostNibble(crc: bv32, x: bv32): bv32
  {
    Joined(TableEntry(TableIndex(crc, x)), crc)
  }

  function Joined(e: bv16, crc: bv32): bv32
  {
    Xor32(Widened(e), crc << 4)
  }

  function Xor32(x: bv32, y: bv32): bv32
  {
    x ^ y
  }

  function Widened(r: bv16): bv32
  {
    r as bv32
  }

  function Low(crc: bv32): bv16
  {
    (crc & 0xFFFF) as bv16
  }

  function TableIndex(crc: bv32, x: bv32): (i: bv16)
    ensures i < 16
  {
    (((crc >> 12) ^ x) & 0x0F) as bv16
  }

  function LowNibble(x: bv32): (n: bv16)
    ensures n < 16
  {
    (x & 0x0F) as bv16
  }

  lemma HostNibbleIs(crc: bv32, x: bv32)
    ensures Low(HostNibble(crc, x)) == NibbleShift(Low(crc), LowNibble(x))
  {
    var n, i := LowNibble(x), TableIndex(crc, x);
    assert TableEntry(i) == Shift4(Spread(i), false, false, false, false) by { TableIsShift(i); }
    hide NibbleShift, Shift4, TableEntry, TableIndex, LowNibble, Low, Joined, Spread, ByTable;
    LowParts(crc, x, TableEntry(i));
    NibbleStep(Low(crc), n);
  }

  /** The part of the accumulator above 16 bits plays no role. */
  lemma LowParts(crc: bv32, x: bv32, e: bv16)
    requires e == Shift4(Spread(TableIndex(crc, x)), false, false, false, false)
    ensures Low(Joined(e, crc)) == ByTable(Low(crc), LowNibble(x))
  {
    IndexMeets(crc, x);
    JoinedLow(e, crc);
    hide Shift4, Spread, Meet, Low, Joined, Up4, Add, TableIndex, LowNibble;
  }

  lemma IndexMeets(crc: bv32, x: bv32)
    ensures Spread(TableIndex(crc, x)) == Meet(Low(crc), LowNibble(x))
  {
  }

  lemma JoinedLow(e: bv16, crc: bv32)
    ensures Low(Joined(e, crc)) == Add(e, Up4(Low(crc)))
  {
    LowOfWide(e);
    LowOfShift(crc);
    LowOfXor(Widened(e), crc << 4);
    hide Low, Xor32, Widened, Add, Up4;
  }

  lemma LowOfXor(x: bv32, y: bv32)
    ensures Low(Xor32(x, y)) == Add(Low(x), Low(y))
  {
  }

  lemma LowOfShift(x: bv32)
    ensures Low(x << 4) == Up4(Low(x))
  {
  }

  lemma ByteIsTwoNibbles(r: bv16, d: bv8)
    ensures CrcBits(r, ByteBits(d)) == NibbleShift(NibbleShift(r, LowNibble(HighPart(d))), LowNibble(LowPart(d)))
  {
    var bits := ByteBits(d);
    var high, low := bits[..4], bits[4..];
    assert bits == high + low;
    NibbleBits(d);
    hide Shift, ByteBits, HighPart, LowPart, LowNibble, Has16;
    CrcConcat(r, high, low);
    FourBits(r, high);
    FourBits(CrcBits(r, high), low);
  }

  function HighPart(d: bv8): bv32
  {
    (d >> 4) as bv32
  }

  function LowPart(d: bv8): bv32
  {
    d as bv32
  }

  lemma NibbleBits(d: bv8)
    ensures var n := LowNibble(HighPart(d));
            ByteBits(d)[..4] == [Has16(n, 8), Has16(n, 4), Has16(n, 2), Has16(n, 1)]
    ensures var n := LowNibble(LowPart(d));
            ByteBits(d)[4..] == [Has16(n, 8), Has16(n, 4), Has16(n, 2), Has16(n, 1)]
  {
  }

  lemma FourBits(r: bv16, bits: seq<bool>)
    requires |bits| == 4
    ensures CrcBits(r, bits) == Shift4(r, bits[0], bits[1], bits[2], bits[3])
  {
    hide Shift;
    CrcHead(r, bits);
    CrcHead(Shift(r, bits[0]), bits[1..]);
    CrcHead(Shift(Shift(r, bits[0]), bits[1]), bits[2..]);
    CrcHead(Shift(Shift(Shift(r, bits[0]), bits[1]), bits[2]), bits[3..]);
  }

  lemma CrcHead(r: bv16, bits: seq<bool>)
    requires bits != []
    ensures CrcBits(r, bits) == CrcBits(Shift(r, bits[0]), bits[1..])
    ensures |bits| == 1 ==> CrcBits(r, bits) == Shift(r, bits[0])
  {
    hide Shift;
  }

  /** A byte on the host. */
  lemma HostByte(crc: bv32, d: bv8)
    ensures Low(HostNibble(HostNibble(crc, HighPart(d)), LowPart(d))) == CrcBits(Low(crc), ByteBits(d))
  {
    hide NibbleShift, HostNibble, Low, LowNibble, HighPart, LowPart, ByteBits;
    HostNibbleIs(crc, HighPart(d));
    HostNibbleIs(HostNibble(crc, HighPart(d)), LowPart(d));
    ByteIsTwoNibbles(Low(crc), d);
  }

  lemma CrcSnoc(r: bv16, data: seq<bv8>, d: bv8)
    ensures CrcOf(r, data + [d]) == CrcBits(CrcOf(r, data), ByteBits(d))
  {
    CrcSplits(r, data, [d]);
    assert Bits([d]) == ByteBits(d) by { assert [d][1..] == []; assert Bits([]) == []; }
  }

  /** The host's checksum of a buffer. The accumulator is cut to 16 bits only at the end. */
  method CalculateCrc(start: bv32, data: array<bv8>, from: nat, nbytes: nat) returns (result: bv16)
    requires from + nbytes <= data.Length
    ensures result == CrcOf(Low(start), data[from..from + nbytes])
  {
    hide HostNibble, CrcOf, Low, ByteBits, HighPart, LowPart;
    var crc := start;
    var i := 0;
    NoBytes(Low(start));
    assert data[from..from] == [];
    while i < nbytes
      invariant 0 <= i <= nbytes
      invariant Low(crc) == CrcOf(Low(start), data[from..from + i])
    {
      var d := data[from + i];
      HostByte(crc, d);
      CrcSnoc(Low(start), data[from..from + i], d);
      assert data[from..from + i + 1] == data[from..from + i] + [d];
      crc := HostNibble(crc, HighPart(d));
      crc := HostNibble(crc, LowPart(d));
      i := i + 1;
    }
    result := Low(crc);
  }

  lemma NoBytes(r: bv16)
    ensures CrcOf(r, []) == r
  {
  }

  // ----- The executive's byte table -----------------------------------------------

  function Xor(a: seq<bool>, b: seq<bool>): (x: seq<bool>)
    requires |a| == |b|
    ensures |x| == |a|
  {
    seq(|a|, i requires 0 <= i < |a| => a[i] != b[i])
  }

  lemma ShlXor(r: bv16, s: bv16)
    ensures Shl(Add(r, s)) == Add(Shl(r), Shl(s))
  {
  }

  lemma TopXor(r: bv16, s: bv16)
    ensures Top(Add(r, s)) == (Top(r) != Top(s))
  {
  }

  lemma AddAssociates(a: bv16, b: bv16, c: bv16)
    ensures Add(Add(a, b), c) == Add(a, Add(b, c))
  {
  }

  lemma AddCommutes(a: bv16, b: bv16)
    ensures Add(a, b) == Add(b, a)
  {
  }

  lemma AddRegroups(a: bv16, b: bv16, c: bv16, d: bv16)
    ensures Add(Add(a, b), Add(c, d)) == Add(Add(a, c), Add(b, d))
  {
    hide Add;
    AddAssociates(a, b, Add(c, d));
    AddAssociates(b, c, d);
    AddCommutes(b, c);
    AddAssociates(c, b, d);
    AddAssociates(a, c, Add(b, d));
  }

  lemma FeedbackLinear(a: bool, b: bool)
    ensures Feedback(a != b) == Add(Feedback(a), Feedback(b))
  {
    if a && b {
      assert Add(POLYNOMIAL, POLYNOMIAL) == 0;
    }
  }

  /** The register is linear over GF(2). */
  lemma ShiftLinear(r: bv16, s: bv16, a: bool, b: bool)
    ensures Shift(Add(r, s), a != b) == Add(Shift(r, a), Shift(s, b))
  {
    hide Top, Shl, Add, Feedback;
    TopXor(r, s);
    ShlXor(r, s);
    var x, y := Top(r) != a, Top(s) != b;
    assert (Top(Add(r, s)) != (a != b)) == (x != y);
    FeedbackLinear(x, y);
    AddRegroups(Shl(r), Feedback(x), Shl(s), Feedback(y));
  }

  lemma {:induction false} CrcLinear(r: bv16, s: bv16, a: seq<bool>, b: seq<bool>)
    requires |a| == |b|
    ensures CrcBits(Add(r, s), Xor(a, b)) == Add(CrcBits(r, a), CrcBits(s, b))
    decreases |a|
  {
    hide Shift, Add, CrcBits;
    if a == [] {
      NoBits(r);
      NoBits(s);
      NoBits(Add(r, s));
    } else {
      ShiftLinear(r, s, a[0], b[0]);
      CrcLinear(Shift(r, a[0]), Shift(s, b[0]), a[1..], b[1..]);
      assert Xor(a, b)[1..] == Xor(a[1..], b[1..]);
      CrcHead(r, a);
      CrcHead(s, b);
      CrcHead(Add(r, s), Xor(a, b));
    }
  }

  lemma NoBits(r: bv16)
    ensures CrcBits(r, []) == r
  {
  }

  function HighByte(r: bv16): bv8
  {
    (r >> 8) as bv8
  }

  function LowByte(r: bv16): bv8
  {
    (r & 0xFF) as bv8
  }

  function Number(b: bv8): (n: nat)
    ensures n < 0x100
  {
    b as int
  }

  /** The register as a number. */
  function Value(r: bv16): (v: nat)
    ensures v < 0x1_0000
  {
    0x100 * Number(HighByte(r)) + Number(LowByte(r))
  }

  lemma ByteValue(a: bv8, b: bv8)
    requires Number(a) == Number(b)
    ensures a == b
  {
    assert (a as int) as bv8 == a && (b as int) as bv8 == b;
  }

  lemma BytesDetermine(r: bv16, s: bv16)
    requires HighByte(r) == HighByte(s) && LowByte(r) == LowByte(s)
    ensures r == s
  {
  }

  lemma ValueInjective(r: bv16, s: bv16)
    ensures Value(r) == Value(s) <==> r == s
  {
    hide HighByte, LowByte, Number;
    if Value(r) == Value(s) {
      ByteValue(HighByte(r), HighByte(s));
      ByteValue(LowByte(r), LowByte(s));
      BytesDetermine(r, s);
    }
  }

  function XorByte(a: bv8, b: bv8): bv8
  {
    a ^ b
  }

  lemma XorBit(a: bv8, b: bv8, m: bv8)
    requires m == 0x80 || m == 0x40 || m == 0x20 || m == 0x10 || m == 0x08 || m == 0x04 || m == 0x02 || m == 0x01
    ensures (Has(a, m) != Has(XorByte(a, b), m)) == Has(b, m)
  {
  }

  function MaskOf(k: nat): bv8
    requires k < 8
  {
    if k == 0 then 0x80 else if k == 1 then 0x40 else if k == 2 then 0x20 else if k == 3 then 0x10
    else if k == 4 then 0x08 else if k == 5 then 0x04 else if k == 6 then 0x02 else 0x01
  }

  lemma ByteBitsAt(d: bv8, k: nat)
    requires k < 8
    ensures ByteBits(d)[k] == Has(d, MaskOf(k))
  {
    hide Has;
  }

  lemma XorBytes(a: bv8, b: bv8)
    ensures Xor(ByteBits(a), ByteBits(XorByte(a, b))) == ByteBits(b)
  {
    hide Has, XorByte, ByteBits;
    forall k: nat | k < 8
      ensures Xor(ByteBits(a), ByteBits(XorByte(a, b)))[k] == ByteBits(b)[k]
    {
      ByteBitsAt(a, k);
      ByteBitsAt(b, k);
      ByteBitsAt(XorByte(a, b), k);
      XorBit(a, b, MaskOf(k));
    }
  }

  /** A bit equal to the top of the register only shifts. */
  lemma ShiftTop(r: bv16)
    ensures Shift(r, Top(r)) == Shl(r)
  {
  }

  lemma HighByteBits(r: bv16)
    ensures var bits := ByteBits(HighByte(r));
            var r2 := Shl(Shl(r));
            var r4 := Shl(Shl(r2));
            var r6 := Shl(Shl(r4));
            && bits == [Top(r), Top(Shl(r)), Top(r2), Top(Shl(r2)), Top(r4), Top(Shl(r4)), Top(r6), Top(Shl(r6))]
            && Shl(Shl(r6)) == r << 8
  {
  }

  lemma FourTops(r: bv16, bits: seq<bool>)
    requires bits == [Top(r), Top(Shl(r)), Top(Shl(Shl(r))), Top(Shl(Shl(Shl(r))))]
    ensures CrcBits(r, bits) == Shl(Shl(Shl(Shl(r))))
  {
    hide Shift, Shl, Top;
    FourBits(r, bits);
    ShiftTop(r);
    ShiftTop(Shl(r));
    ShiftTop(Shl(Shl(r)));
    ShiftTop(Shl(Shl(Shl(r))));
  }

  /** Feeding the register its own high byte leaves the low byte, shifted up. */
  lemma FeedsHighByte(r: bv16)
    ensures CrcBits(r, ByteBits(HighByte(r))) == r << 8
  {
    HighByteBits(r);
    hide Shift, Shl, Top, ByteBits, HighByte;
    var bits := ByteBits(HighByte(r));
    var r4 := Shl(Shl(Shl(Shl(r))));
    assert bits == bits[..4] + bits[4..];
    CrcConcat(r, bits[..4], bits[4..]);
    FourTops(r, bits[..4]);
    FourTops(r4, bits[4..]);
  }

  /** The byte-table step: the entry for the high byte xor the new byte, onto the low byte. */
  lemma ByteStep(r: bv16, d: bv8)
    ensures CrcBits(r, ByteBits(d)) == Add(CrcBits(0, ByteBits(XorByte(HighByte(r), d))), r << 8)
  {
    hide Shift, ByteBits, HighByte, XorByte, Add, Xor;
    var x := HighByte(r);
    XorBytes(x, d);
    CrcLinear(r, 0, ByteBits(x), ByteBits(XorByte(x, d)));
    FeedsHighByte(r);
    AddZero(r);
    AddCommutes(r << 8, CrcBits(0, ByteBits(XorByte(x, d))));
  }

  lemma AddZero(r: bv16)
    ensures Add(r, 0) == r
  {
  }

  /** Index in the table as a byte. */
  function ByteOf(i: nat): bv8
    requires i < 256
  {
    i as bv8
  }

  function IndexOf(d: bv8): (i: nat)
    ensures i < 256 && ByteOf(i) == d
  {
    d as nat
  }

  /** Every entry is the effect of its index on a zero register. */
  ghost predicate TableBuilt(table: seq<bv16>)
  {
    |table| == 256 && forall i :: 0 <= i < 256 ==> table[i] == CrcBits(0, ByteBits(ByteOf(i)))
  }

  /** The checksum routines inside the executive of the MX3 family. */
  class PeCrc {
    var crc: bv16
    const table: array<bv16>

    constructor ()
      ensures fresh(table) && table.Length == 256
    {
      table := new bv16[256](_ => 0);
      crc := 0;
    }

    /** One table entry: eight turns on the remainder and the shifted index. */
    method Entry(i: nat) returns (rem: bv16)
      requires i < 256
      ensures rem == CrcBits(0, ByteBits(ByteOf(i)))
    {
      hide Shift, ByteBits, Add, ByteOf, Top, Shl;
      ghost var bits := ByteBits(ByteOf(i));
      rem := 0;
      var v := Spread8(ByteOf(i));
      ghost var v0 := v;
      var k := 0;
      while k < 8
        invariant 0 <= k <= 8
        invariant rem == CrcBits(0, bits[..k])
        invariant v == Shls(v0, k)
      {
        EntryBit(ByteOf(i), k);
        EntryTurn(rem, v);
        CrcConcat(0, bits[..k], [bits[k]]);
        assert bits[..k + 1] == bits[..k] + [bits[k]];
        CrcHead(CrcBits(0, bits[..k]), [bits[k]]);
        rem := if Top(Add(rem, v)) then Add(Shl(rem), POLYNOMIAL) else Shl(rem);
        v := Shl(v);
        k := k + 1;
      }
      assert bits[..8] == bits;
    }

    method BuildTable()
      requires table.Length == 256
      modifies table
      ensures TableBuilt(table[..])
    {
      hide ByteBits, CrcBits, ByteOf;
      var i := 0;
      while i < 256
        invariant 0 <= i <= 256
        invariant forall j :: 0 <= j < i ==> table[j] == CrcBits(0, ByteBits(ByteOf(j)))
      {
        var e := Entry(i);
        table[i] := e;
        i := i + 1;
      }
    }

    /** One byte. */
    method Update(d: bv8)
      requires TableBuilt(table[..])
      modifies this`crc
      ensures crc == CrcBits(old(crc), ByteBits(d))
    {
      hide ByteBits, CrcBits, ByteOf, IndexOf, HighByte, XorByte, Add;
      ByteStep(crc, d);
      var entry := table[IndexOf(XorByte(HighByte(crc), d))];
      crc := Add(entry, crc << 8);
    }

    /** A block of memory. */
    method UpdateBlock(data: array<bv8>, n: nat)
      requires TableBuilt(table[..]) && n <= data.Length
      modifies this`crc
      ensures crc == CrcOf(old(crc), data[..n])
    {
      hide ByteBits, CrcOf;
      NoBytes(crc);
      assert data[..0] == [];
      var i := 0;
      while i < n
        invariant 0 <= i <= n && crc == CrcOf(old(crc), data[..i])
      {
        CrcSnoc(old(crc), data[..i], data[i]);
        assert data[..i + 1] == data[..i] + [data[i]];
        Update(data[i]);
        i := i + 1;
      }
    }
  }

  /** The two implementations agree on every message and every initial value. */
  method BothCompute(start: bv16, data: array<bv8>, n: nat) returns (host: bv16, executive: bv16)
    requires n <= data.Length
    ensures host == executive
  {
    hide CrcOf, Low, Widened;
    LowOfWide(start);
    host := CalculateCrc(Widened(start), data, 0, n);
    var crc := new PeCrc();
    crc.BuildTable();
    crc.crc := start;
    crc.UpdateBlock(data, n);
    executive := crc.crc;
  }

  lemma LowOfWide(r: bv16)
    ensures Low(Widened(r)) == r
  {
  }

  function Spread8(d: bv8): bv16
  {
    (d as bv16) << 8
  }

  function Shls(r: bv16, k: nat): bv16
    decreases k
  {
    if k == 0 then r else Shl(Shls(r, k - 1))
  }

  /** The shifted index shows the bits of the byte one after the other. */
  lemma EntryBit(d: bv8, k: nat)
    requires k < 8
    ensures Top(Shls(Spread8(d), k)) == ByteBits(d)[k]
  {
    SpreadHigh(d);
    HighByteBits(Spread8(d));
    hide Shl, Top, ByteBits, Spread8, HighByte;
    ShlsValues(Spread8(d));
    hide Shls;
    if k < 4 {
      assert k == 0 || k == 1 || k == 2 || k == 3;
    } else {
      assert k == 4 || k == 5 || k == 6 || k == 7;
    }
  }

  lemma ShlsValues(r: bv16)
    ensures Shls(r, 0) == r && Shls(r, 1) == Shl(r)
    ensures var r2 := Shl(Shl(r));
            var r4 := Shl(Shl(r2));
            var r6 := Shl(Shl(r4));
            && Shls(r, 2) == r2 && Shls(r, 3) == Shl(r2) && Shls(r, 4) == r4
            && Shls(r, 5) == Shl(r4) && Shls(r, 6) == r6 && Shls(r, 7) == Shl(r6)
  {
    hide Shl;
    assert Shls(r, 2) == Shl(Shl(r));
    assert Shls(r, 4) == Shl(Shl(Shls(r, 2)));
    assert Shls(r, 6) == Shl(Shl(Shls(r, 4)));
  }

  lemma SpreadHigh(d: bv8)
    ensures HighByte(Spread8(d)) == d
  {
  }

  /** The branch on the exclusive-or of the two tops is a shift of the register. */
  lemma EntryTurn(rem: bv16, v: bv16)
    ensures Shift(rem, Top(v)) == if Top(Add(rem, v)) then Add(Shl(rem), POLYNOMIAL) else Shl(rem)
  {
    TopXor(rem, v);
    AddZero(Shl(rem));
    hide Top, Shl, Add;
  }

  // ----- What a comparison can tell ---------------------------------------------------

  predicate AllZero(x: seq<bool>)
  {
    forall i :: 0 <= i < |x| ==> !x[i]
  }

  lemma {:induction false} ZerosKeepZero(x: seq<bool>)
    requires AllZero(x)
    ensures CrcBits(0, x) == 0
    decreases |x|
  {
    if x != [] {
      assert Shift(0, false) == 0;
      ZerosKeepZero(x[1..]);
    }
  }

  lemma ZeroShiftInjective(r: bv16)
    requires r != 0
    ensures Shift(r, false) != 0
  {
  }

  lemma {:induction false} ZerosKeepNonzero(r: bv16, x: seq<bool>)
    requires r != 0 && AllZero(x)
    ensures CrcBits(r, x) != 0
    decreases |x|
  {
    hide Shift;
    if x != [] {
      ZeroShiftInjective(r);
      ZerosKeepNonzero(Shift(r, x[0]), x[1..]);
    }
  }

  /** A one among the low bits moves up by one position with every shift, or comes back in
      at the bottom. */
  lemma LowOneSurvives(r: bv16, m: bv16, b: bool)
    requires Masked(r, m) && m < 0x8000
    ensures Masked(Shift(r, b), Wider(m))
  {
  }

  function Wider(m: bv16): bv16
  {
    (m << 1) | 1
  }

  predicate Masked(r: bv16, m: bv16)
  {
    r & m != 0
  }

  /** The mask of the low `k + 1` bits. */
  function Mask(k: nat): bv16
    requires k < 16
    decreases k
  {
    if k == 0 then 1 else Wider(Mask(k - 1))
  }

  lemma MaskSmall(k: nat)
    requires k < 15
    ensures Mask(k) < 0x8000
  {
    assert Mask(2) == 0x7 && Mask(4) == 0x1F && Mask(6) == 0x7F && Mask(8) == 0x1FF;
    assert Mask(10) == 0x7FF && Mask(12) == 0x1FFF && Mask(14) == 0x7FFF;
  }

  lemma {:induction false} BurstTail(r: bv16, k: nat, w: seq<bool>)
    requires k + |w| < 16 && Masked(r, Mask(k))
    ensures CrcBits(r, w) != 0
    decreases |w|
  {
    hide Shift, Wider, Masked;
    if w == [] {
      MaskedNonzero(r, Mask(k));
    } else {
      MaskSmall(k);
      LowOneSurvives(r, Mask(k), w[0]);
      BurstTail(Shift(r, w[0]), k + 1, w[1..]);
    }
  }

  lemma MaskedNonzero(r: bv16, m: bv16)
    requires Masked(r, m)
    ensures r != 0
  {
  }

  /** Positions where the two differ lie within 16 consecutive ones. */
  ghost predicate Burst(a: seq<bool>, b: seq<bool>, k: nat)
    requires |a| == |b|
  {
    forall i :: 0 <= i < |a| && !(k <= i < k + 16) ==> a[i] == b[i]
  }

  /** The first difference of two unequal sequences. */
  lemma {:induction false} FirstDifference(a: seq<bool>, b: seq<bool>) returns (k: nat)
    requires |a| == |b| && a != b
    ensures k < |a| && a[k] != b[k] && forall i :: 0 <= i < k ==> a[i] == b[i]
    decreases |a|
  {
    if a[0] != b[0] {
      k := 0;
    } else {
      assert a == [a[0]] + a[1..] && b == [b[0]] + b[1..];
      var j := FirstDifference(a[1..], b[1..]);
      k := j + 1;
    }
  }

  /** An error pattern confined to 16 bits does not disappear from the register. */
  lemma BurstPattern(x: seq<bool>, k: nat, n: nat)
    requires k < |x| && x[k] && k + n <= |x| && 0 < n <= 16
    requires forall i :: 0 <= i < |x| && !(k <= i < k + n) ==> !x[i]
    ensures CrcBits(0, x) != 0
  {
    assert Shift(0, true) == 0x1021 && Masked(0x1021, Mask(0));
    hide Shift, Masked;
    var head, body, tail := x[..k], x[k + 1..k + n], x[k + n..];
    assert x == head + ([x[k]] + body) + tail;
    ZerosKeepZero(head);
    CrcConcat(0, head + ([x[k]] + body), tail);
    CrcConcat(0, head, [x[k]] + body);
    CrcHead(0, [x[k]] + body);
    assert ([x[k]] + body)[1..] == body;
    BurstTail(Shift(0, true), 0, body);
    ZerosKeepNonzero(CrcBits(0, [x[k]] + body), tail);
  }

  /** Two different bit sequences whose differences lie within 16 consecutive bits never have
      the same checksum, wherever the burst is and whatever surrounds it. */
  lemma DetectsBurst(r: bv16, a: seq<bool>, b: seq<bool>, k: nat)
    requires |a| == |b| && a != b && Burst(a, b, k)
    ensures CrcBits(r, a) != CrcBits(r, b)
  {
    hide Shift, CrcBits;
    var x := Xor(a, b);
    var f := FirstDifference(a, b);
    var n := if f + 16 <= |a| then 16 else |a| - f;
    BurstPattern(x, f, n);
    CrcLinear(r, r, a, b);
    SelfCancels(r);
    if CrcBits(r, a) == CrcBits(r, b) {
      SelfCancels(CrcBits(r, a));
    }
  }

  lemma SelfCancels(r: bv16)
    ensures Add(r, r) == 0
  {
  }

  /** Different bytes have different bits. */
  lemma {:induction false} BitsInjective(a: seq<bv8>, b: seq<bv8>)
    requires |a| == |b| && Bits(a) == Bits(b)
    ensures a == b
    decreases |a|
  {
    hide ByteBits;
    if a != [] {
      assert Bits(a)[..8] == ByteBits(a[0]) && Bits(b)[..8] == ByteBits(b[0]);
      ByteBitsInjective(a[0], b[0]);
      assert Bits(a)[8..] == Bits(a[1..]) && Bits(b)[8..] == Bits(b[1..]);
      BitsInjective(a[1..], b[1..]);
      assert a == [a[0]] + a[1..] && b == [b[0]] + b[1..];
    }
  }

  lemma ByteBitsInjective(a: bv8, b: bv8)
    requires ByteBits(a) == ByteBits(b)
    ensures a == b
  {
    var x, y := ByteBits(a), ByteBits(b);
    assert x[0] == y[0] && x[1] == y[1] && x[2] == y[2] && x[3] == y[3];
    assert x[4] == y[4] && x[5] == y[5] && x[6] == y[6] && x[7] == y[7];
  }

  /** The same for blocks of memory of any length. */
  lemma DetectsBlockBurst(r: bv16, a: seq<bv8>, b: seq<bv8>, k: nat)
    requires |a| == |b| && a != b && Burst(Bits(a), Bits(b), k)
    ensures CrcOf(r, a) != CrcOf(r, b)
  {
    if Bits(a) == Bits(b) {
      BitsInjective(a, b);
    }
    DetectsBurst(r, Bits(a), Bits(b), k);
  }

  lemma GeneratorSteps()
    ensures Shift(0, true) == 0x1021 && Shift(0x1021, false) == 0x2042 && Shift(0x2042, false) == 0x4084
    ensures Shift(0x4084, false) == 0x8108 && Shift(0x8108, true) == 0x0210 && Shift(0x0210, false) == 0x0420
    ensures Shift(0x0420, false) == 0x0840 && Shift(0x0840, false) == 0x1080 && Shift(0x1080, false) == 0x2100
    ensures Shift(0x2100, false) == 0x4200 && Shift(0x4200, false) == 0x8400 && Shift(0x8400, true) == 0x0800
    ensures Shift(0x0800, false) == 0x1000 && Shift(0x1000, false) == 0x2000 && Shift(0x2000, false) == 0x4000
    ensures Shift(0x4000, false) == 0x8000 && Shift(0x8000, true) == 0
  {
  }

  /** The generator polynomial, from x^16 down. */
  const GENERATOR: seq<bool> :=
    [ true, false, false, false, true, false, false, false, false,
      false, false, true, false, false, false, false, true ]

  lemma GeneratorVanishes()
    ensures CrcBits(0, GENERATOR) == 0
  {
    GeneratorSteps();
    hide Shift;
    var p, q := [true, false, false, false], [true, false, false, false];
    var u, v := [false, false, false, true], [false, false, false, false];
    assert GENERATOR == p + (q + (u + (v + [true])));
    CrcConcat(0, p, q + (u + (v + [true])));
    FourBits(0, p);
    CrcConcat(0x8108, q, u + (v + [true]));
    FourBits(0x8108, q);
    CrcConcat(0x1080, u, v + [true]);
    FourBits(0x1080, u);
    CrcConcat(0x0800, v, [true]);
    FourBits(0x0800, v);
    CrcHead(0x8000, [true]);
  }

  function Quiet(n: nat): (z: seq<bool>)
    ensures |z| == n && AllZero(z)
  {
    seq(n, _ => false)
  }

  /** An error of the generator's shape at position `k` of `n` bits. */
  function GeneratorAt(n: nat, k: nat): (e: seq<bool>)
    requires k + 17 <= n
    ensures |e| == n && e[k] && e[k + 16]
    ensures forall i :: 0 <= i < n && !(k <= i < k + 17) ==> !e[i]
  {
    Quiet(k) + GENERATOR + Quiet(n - k - 17)
  }

  /** Sixteen is the limit: adding the generator anywhere in any message, from any register,
      changes 17 consecutive bits at most and leaves the checksum as it was. */
  lemma MissesGenerator(r: bv16, a: seq<bool>, k: nat)
    requires k + 17 <= |a|
    ensures var b := Xor(a, GeneratorAt(|a|, k));
            && CrcBits(r, b) == CrcBits(r, a) && b != a
            && forall i :: 0 <= i < |a| && !(k <= i < k + 17) ==> b[i] == a[i]
  {
    hide Shift, CrcBits, Add;
    var e, tail := GeneratorAt(|a|, k), Quiet(|a| - k - 17);
    CrcConcat(0, Quiet(k) + GENERATOR, tail);
    CrcConcat(0, Quiet(k), GENERATOR);
    ZerosKeepZero(Quiet(k));
    GeneratorVanishes();
    ZerosKeepZero(tail);
    CrcLinear(r, 0, a, e);
    AddZero(r);
    AddZero(CrcBits(r, a));
    assert Xor(a, e)[k] != a[k];
  }
}
