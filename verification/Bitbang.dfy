/** The serial adapter: TAP clocks as characters, and how many of them may be under way. */
module Bitbang {
  import opened Words
  import opened Bits
  import opened Tap
  import opened TapRuns

  // ----- Characters -----------------------------------------------------------------

  const MARK: Byte := 62
  const DELAY: Byte := 56
  const ANSWER: Byte := 60

  /** TMS, TDI and the request to read TDO in one character. */
  function Code(tms: bool, tdi: bool, read: bool): Byte
  {
    (if tdi then 2 else 0) + (if tms then 1 else 0) + (if read then 68 else 100)
  }

  /** The letters of the programmer's command set: d to g, and D to G to read TDO. */
  lemma Letters()
    ensures Code(false, false, false) == 100 && Code(true, false, false) == 101
    ensures Code(false, true, false) == 102 && Code(true, true, false) == 103
    ensures Code(false, false, true) == 68 && Code(true, false, true) == 69
    ensures Code(false, true, true) == 70 && Code(true, true, true) == 71
  {
  }

  predicate IsClock(c: Byte)
  {
    100 <= c <= 103 || IsRead(c)
  }

  /** A clock whose TDO the programmer sends back. */
  predicate IsRead(c: Byte)
  {
    68 <= c <= 71
  }

  predicate IsMark(c: Byte)
  {
    c == MARK
  }

  /** How the programmer understands a clock. */
  function Decode(c: Byte): Pair
    requires IsClock(c)
  {
    Pair(c % 2 == 1, c / 2 % 2 == 1)
  }

  function TmsChars(tms: seq<bool>): (r: seq<Byte>)
    ensures |r| == |tms|
    ensures forall i :: 0 <= i < |r| ==> r[i] == Code(tms[i], false, false)
  {
    seq(|tms|, i requires 0 <= i < |tms| => Code(tms[i], false, false))
  }

  function TdiChars(tdi: seq<bool>, read: bool): (r: seq<Byte>)
    ensures |r| == |tdi|
    ensures forall i :: 0 <= i < |r| ==> r[i] == Code(i == |tdi| - 1, tdi[i], read && i != |tdi| - 1)
  {
    seq(|tdi|, i requires 0 <= i < |tdi| => Code(i == |tdi| - 1, tdi[i], read && i != |tdi| - 1))
  }

  function Lead(read: bool): seq<Byte>
  {
    [Code(true, false, false), Code(false, false, false), Code(false, false, read)]
  }

  const TAIL: seq<Byte> := [Code(true, false, false), Code(false, false, false)]

  /** The characters for some TMS bits and then, if there are any TDI bits, a register access. */
  function Chars(tms: seq<bool>, tdi: seq<bool>, read: bool): (r: seq<Byte>)
    ensures |r| == |tms| + (if tdi == [] then 0 else |tdi| + 5)
  {
    TmsChars(tms) + (if tdi == [] then [] else Lead(read) + TdiChars(tdi, read) + TAIL)
  }

  /** The same for any read flag: 0 reads nothing, 1 as many bits as are sent, 2 the first one. */
  function FlagChars(tms: seq<bool>, tdi: seq<bool>, flag: nat): (r: seq<Byte>)
    ensures |r| == |tms| + (if tdi == [] then 0 else |tdi| + 5)
    ensures flag < 2 ==> r == Chars(tms, tdi, flag == 1)
  {
    TmsChars(tms) + (if tdi == [] then [] else Lead(flag != 0) + TdiChars(tdi, flag == 1) + TAIL)
  }

  // ----- The wire -------------------------------------------------------------------

  /** `sent` is all that was written to the programmer, `acked` how much of it the host knows
      to be consumed; the other fields are the adapter's own counters. */
  datatype Wire = Wire(sent: seq<Byte>, acked: nat, count: nat, pending: bool, toRead: nat)

  /** The position after the last character of a kind. */
  function After(s: seq<Byte>, kind: Byte -> bool): (n: nat)
    ensures n <= |s|
  {
    if s == [] then 0 else if kind(s[|s| - 1]) then |s| else After(s[..|s| - 1], kind)
  }

  /** Send characters. If a mark is unanswered its answer is awaited first: everything up to
      it is then known to be consumed. */
  function DoSend(w: Wire, chars: seq<Byte>, read: bool, nbits: nat): Wire
  {
    var acked := if w.pending then After(w.sent, IsMark) else w.acked;
    var count := if w.pending then 0 else w.count;
    var mark := !read && count + |chars| > 900;
    var out := if mark then chars + [MARK] else chars;
    Wire(w.sent + out, acked, count + |out|, mark, if read then w.toRead + nbits else w.toRead)
  }

  /** Receive: what was read is known to be consumed. */
  function DoRecv(w: Wire): Wire
  {
    w.(acked := After(w.sent, IsRead), count := 0, toRead := 0)
  }

  function DoDelay(w: Wire): Wire
  {
    w.(sent := w.sent + [DELAY])
  }

  /** Bit `i` of the reply as the host computes it, an `int` shifted and widened to 64 bits. */
  function ShiftedOne(i: nat): nat
    requires i < 32
  {
    if i < 31 then Pow2(i) else 0xFFFF_FFFF_8000_0000
  }

  class BitbangAdapter {
    var runningWriteCount: nat
    var maxBufferedWrites: nat
    var bitsToRead: nat
    var pendingHandshake: bool
    var sent: seq<Byte>
    ghost var acked: nat

    ghost function View(): Wire
      reads this
    {
      Wire(sent, acked, runningWriteCount, pendingHandshake, bitsToRead)
    }

    constructor ()
      ensures View() == Wire([], 0, 0, false, 0)
    {
      runningWriteCount, maxBufferedWrites, bitsToRead, pendingHandshake := 0, 0, 0, false;
      sent := [];
      acked := 0;
    }

    method SerialWrite(buffer: array<Byte>, n: nat)
      requires n <= buffer.Length
      modifies this`sent
      ensures sent == old(sent) + buffer[..n]
    {
      sent := sent + buffer[..n];
    }

    method Delay10mS()
      modifies this`sent
      ensures View() == DoDelay(old(View()))
    {
      sent := sent + [DELAY];
    }

    /** TMS bits, least significant first. */
    method EncodeTms(buffer: array<Byte>, nbits: nat, tms: nat)
      requires nbits <= 14 && buffer.Length == 110
      modifies buffer
      ensures buffer[..nbits] == TmsChars(ToBits(tms, nbits))
    {
      hide ToBits, Shr, Bit, Code;
      ghost var want := TmsChars(ToBits(tms, nbits));
      var t, index, i := tms, 0, nbits;
      ShrNothing(tms);
      while i > 0
        invariant 0 <= i <= nbits && index == nbits - i && t == Shr(tms, index)
        invariant buffer[..index] == want[..index]
      {
        NextBit(tms, nbits, index);
        buffer[index] := Code(t % 2 == 1, false, false);
        assert buffer[..index + 1] == buffer[..index] + [want[index]];
        index := index + 1;
        t := t / 2;
        i := i - 1;
      }
      assert want[..nbits] == want;
    }

    /** TDI bits after `at` other characters, the last one with TMS high. */
    method EncodeTdi(buffer: array<Byte>, at: nat, nbits: nat, tdi: nat, readFlag: bool)
      requires at <= 17 && nbits <= 64 && buffer.Length == 110
      modifies buffer
      ensures buffer[..at + nbits] == old(buffer[..at]) + TdiChars(ToBits(tdi, nbits), readFlag)
    {
      hide ToBits, Shr, Bit, Code;
      ghost var want, start := TdiChars(ToBits(tdi, nbits), readFlag), buffer[..at];
      var t, index, i := tdi, at, nbits;
      ShrNothing(tdi);
      while i > 0
        invariant 0 <= i <= nbits && index == at + (nbits - i) && t == Shr(tdi, nbits - i)
        invariant buffer[..index] == start + want[..nbits - i]
      {
        NextBit(tdi, nbits, nbits - i);
        buffer[index] := Code(i == 1, t % 2 == 1, readFlag && i != 1);
        assert buffer[..index + 1] == buffer[..index] + [want[nbits - i]];
        index := index + 1;
        t := t / 2;
        i := i - 1;
      }
      assert want[..nbits] == want;
    }

    /** The way into a register. */
    method EncodeLead(buffer: array<Byte>, at: nat, readFlag: bool)
      requires at + 3 <= buffer.Length
      modifies buffer
      ensures buffer[..at + 3] == old(buffer[..at]) + Lead(readFlag)
    {
      hide Code;
      buffer[at] := Code(true, false, false);
      buffer[at + 1] := Code(false, false, false);
      buffer[at + 2] := Code(false, false, readFlag);
    }

    /** The way out. */
    method EncodeTail(buffer: array<Byte>, at: nat)
      requires at + 2 <= buffer.Length
      modifies buffer
      ensures buffer[..at + 2] == old(buffer[..at]) + TAIL
    {
      hide Code;
      buffer[at] := Code(true, false, false);
      buffer[at + 1] := Code(false, false, false);
    }

    /** Put the characters of an operation into the buffer. */
    method Encode(buffer: array<Byte>, tmsNbits: nat, tms: nat, tdiNbits: nat, tdi: nat, readFlag: nat)
      returns (index: nat)
      requires tmsNbits <= 14 && tdiNbits <= 64 && buffer.Length == 110
      modifies buffer
      ensures index <= 83 && buffer[..index] == FlagChars(ToBits(tms, tmsNbits), ToBits(tdi, tdiNbits), readFlag)
    {
      hide ToBits, Code, TmsChars, TdiChars, Shr, Bit, Lead;
      ghost var a, b := TmsChars(ToBits(tms, tmsNbits)), TdiChars(ToBits(tdi, tdiNbits), readFlag == 1);
      EncodeTms(buffer, tmsNbits, tms);
      index := tmsNbits;
      if tdiNbits == 0 {
        return;
      }
      EncodeLead(buffer, index, readFlag != 0);
      index := index + 3;
      EncodeTdi(buffer, index, tdiNbits, tdi, readFlag == 1);
      index := index + tdiNbits;
      EncodeTail(buffer, index);
      index := index + 2;
      assert buffer[..index] == a + Lead(readFlag != 0) + b + TAIL == a + (Lead(readFlag != 0) + b + TAIL);
    }

    /** Send an operation. `answer` is the programmer's reply to a mark, if one is awaited. */
    method Send(tmsNbits: nat, tms: nat, tdiNbits: nat, tdi: nat, readFlag: nat) returns (answer: Byte)
      requires tmsNbits <= 14 && tdiNbits <= 64
      modifies this
      ensures View() == DoSend(old(View()), FlagChars(ToBits(tms, tmsNbits), ToBits(tdi, tdiNbits), readFlag),
                               readFlag != 0, tdiNbits)
      ensures maxBufferedWrites == if old(pendingHandshake && runningWriteCount > maxBufferedWrites)
                                   then old(runningWriteCount) else old(maxBufferedWrites)
    {
      hide FlagChars, Chars, ToBits, After;
      ghost var chars := FlagChars(ToBits(tms, tmsNbits), ToBits(tdi, tdiNbits), readFlag);
      var buffer := new Byte[110];
      var index := Encode(buffer, tmsNbits, tms, tdiNbits, tdi, readFlag);
      answer := ANSWER;
      if pendingHandshake {
        if runningWriteCount > maxBufferedWrites {
          maxBufferedWrites := runningWriteCount;
        }
        runningWriteCount := 0;
        pendingHandshake := false;
        acked := After(sent, IsMark);
      }
      if readFlag == 0 && runningWriteCount + index > 900 {
        buffer[index] := MARK;
        index := index + 1;
        pendingHandshake := true;
        assert buffer[..index] == chars + [MARK];
      }
      buffer[index] := 0;
      runningWriteCount := runningWriteCount + index;
      SerialWrite(buffer, index);
      if readFlag != 0 {
        bitsToRead := bitsToRead + tdiNbits;
      }
    }

    /** Receive the bits of the last reading send. The low 32 bits of the result are the reply. */
    method Recv(reply: seq<Byte>) returns (word: nat)
      requires |reply| <= bitsToRead && |reply| <= 32
      modifies this
      ensures View() == DoRecv(old(View()))
      ensures maxBufferedWrites == if old(runningWriteCount > maxBufferedWrites)
                                   then old(runningWriteCount) else old(maxBufferedWrites)
      ensures word % 0x1_0000_0000 == FromBits(ReplyBits(reply))
      ensures |reply| < 32 ==> word == FromBits(ReplyBits(reply))
    {
      hide FromBits, Or, Pow2, After;
      if runningWriteCount > maxBufferedWrites {
        maxBufferedWrites := runningWriteCount;
      }
      runningWriteCount := 0;
      var n := |reply|;
      word := 0;
      var i := 0;
      NoBits();
      assert ReplyBits(reply)[..0] == [];
      while i < n
        invariant 0 <= i <= n && View() == old(View()).(count := 0)
        invariant maxBufferedWrites == if old(runningWriteCount > maxBufferedWrites)
                                       then old(runningWriteCount) else old(maxBufferedWrites)
        invariant word % 0x1_0000_0000 == FromBits(ReplyBits(reply)[..i]) &&
                  (i < 32 ==> word == FromBits(ReplyBits(reply)[..i]))
      {
        assert ReplyBits(reply)[..i + 1] == ReplyBits(reply)[..i] + [reply[i] == 49];
        OrBitIn(ReplyBits(reply)[..i], reply[i] == 49);
        if reply[i] == 49 {
          word := Or(word, ShiftedOne(i));
        }
        i := i + 1;
      }
      assert ReplyBits(reply)[..n] == ReplyBits(reply);
      acked := After(sent, IsRead);
      bitsToRead := 0;
    }
  }

  function ReplyBits(reply: seq<Byte>): (bits: seq<bool>)
    ensures |bits| == |reply|
  {
    seq(|reply|, i requires 0 <= i < |reply| => reply[i] == 49)
  }

  lemma NextBit(v: nat, n: nat, i: nat)
    requires i < n
    ensures ToBits(v, n)[i] == (Shr(v, i) % 2 == 1) && Shr(v, i + 1) == Shr(v, i) / 2
  {
    ToBitsAt(v, n, i);
    ShrStep(v, i);
  }

  lemma OrOne(bits: seq<bool>)
    ensures Or(FromBits(bits), Pow2(|bits|)) == FromBits(bits + [true])
    ensures FromBits(bits + [false]) == FromBits(bits)
  {
    OrAppends(bits, true);
    OrAppends(bits, false);
    hide FromBits;
    OrZero(FromBits(bits));
    assert 1 * Pow2(|bits|) == Pow2(|bits|) && 0 * Pow2(|bits|) == 0;
  }

  /** One more reply bit: exact up to bit 30, and modulo 2^32 for bit 31, which the host's
      shift extends upwards. */
  lemma OrBitIn(bits: seq<bool>, b: bool)
    requires |bits| < 32
    ensures var v := FromBits(bits); var w := if b then Or(v, ShiftedOne(|bits|)) else v;
            w % 0x1_0000_0000 == FromBits(bits + [b]) && (|bits| < 31 ==> w == FromBits(bits + [b]))
  {
    var v, more := FromBits(bits), FromBits(bits + [b]);
    hide FromBits, Or, Pow2;
    OrOne(bits);
    Pow2Values();
    Pow2Grows(|bits| + 1, 32);
    assert more < Pow2(|bits + [b]|) == Pow2(|bits| + 1) <= 0x1_0000_0000;
    SmallMod(more);
    if b && |bits| == 31 {
      TopBit(v);
    }
  }

  lemma SmallMod(x: nat)
    ensures x < 0x1_0000_0000 ==> x % 0x1_0000_0000 == x
  {
  }

  lemma OrZero(v: nat)
    ensures Or(v, 0) == v
  {
  }

  lemma TopBit(v: nat)
    requires v < Pow2(31)
    ensures Or(v, 0xFFFF_FFFF_8000_0000) % 0x1_0000_0000 == Or(v, Pow2(31))
  {
    TopPower();
    OrCommutes(v, 0xFFFF_FFFF_8000_0000);
    OrDisjoint(0x1_FFFF_FFFF, 31, v);
    OrCommutes(v, Pow2(31));
    OrDisjoint(1, 31, v);
    hide Or, Pow2;
    assert Or(v, 0xFFFF_FFFF_8000_0000) == 0x1_0000_0000 * 0xFFFF_FFFF + (0x8000_0000 + v);
    LowPart(0xFFFF_FFFF, 0x8000_0000 + v);
  }

  lemma TopPower()
    ensures Pow2(31) == 0x8000_0000
  {
    Pow2Values();
    hide Pow2;
    assert Pow2(32) == 2 * Pow2(31) by { HalfPower(32); }
  }

  lemma HalfPower(n: nat)
    requires n > 0
    ensures Pow2(n) == 2 * Pow2(n - 1)
  {
  }

  lemma LowPart(q: nat, r: nat)
    requires r < 0x1_0000_0000
    ensures (0x1_0000_0000 * q + r) % 0x1_0000_0000 == r
  {
  }
}
