/** EJTAG register accesses as the pseudo operations use them: five-bit instructions,
    32-bit words, the handshake bits of the control register. */
module Ejtag {
  import opened Words
  import opened Bits
  import opened Tap
  import opened TapRuns

  /** Poll value: PrAcc, ProbEn and ProbTrap set. */
  const POLL: Word := 0x0004_C000
  /** Release value: PrAcc clear, ProbEn and ProbTrap set. */
  const RELEASE: Word := 0x0000_C000

  function Select(r: Registers, code: nat): Registers
  {
    r.(ir := ToBits(code, 5))
  }

  lemma SelectCode(r: Registers, code: nat)
    requires code < 32
    ensures FromBits(Select(r, code).ir) == code
  {
    assert Pow2(5) == 32 by { assert Pow2(3) == 8; }
    RoundTrip(code, 5);
  }

  lemma ControlBits()
    ensures Bit(POLL, PRACC) && Bit(POLL, PROBEN) && Bit(POLL, PROBTRAP)
    ensures !Bit(RELEASE, PRACC) && Bit(RELEASE, PROBEN) && Bit(RELEASE, PROBTRAP)
    ensures !Bit(0, PRACC) && !Bit(0, PROBEN)
  {
    BitOfWord(POLL, 18);
    BitOfWord(POLL, 15);
    BitOfWord(POLL, 14);
    BitOfWord(RELEASE, 18);
    BitOfWord(RELEASE, 15);
    BitOfWord(RELEASE, 14);
    BitOfWord(0, 18);
    BitOfWord(0, 15);
    assert ByteOf(POLL, 2) == 4 && ByteOf(POLL, 1) == 0xC0;
    assert ByteOf(RELEASE, 2) == 0 && ByteOf(RELEASE, 1) == 0xC0;
    assert Bit(0xC0, 6) && Bit(0xC0, 7) by {
      assert Bit(0xC0, 6) == Bit(0x30, 4) == Bit(0x0C, 2) == Bit(0x06, 1);
      assert Bit(0xC0, 7) == Bit(0x30, 5) == Bit(0x0C, 3) == Bit(0x06, 2);
    }
    assert Bit(4, 2) == Bit(2, 1) && !Bit(0, 2) by { assert Bit(0, 2) == Bit(0, 1); }
    assert !Bit(0, 7) by { assert Bit(0, 7) == Bit(0, 5) == Bit(0, 3) == Bit(0, 1); }
  }

  /** Polling enables the probe, leaves the pending access alone, and shows PrAcc. */
  lemma PollControl(r: Registers)
    ensures var s := Select(r, ETAP_CONTROL);
            && |Capture(s)| == 32 && Capture(s)[PRACC] == r.ready
            && Update(s, ToBits(POLL, 32)) == s.(probeOn := true)
  {
    hide FromBits, Bit;
    SelectCode(r, ETAP_CONTROL);
    ControlBits();
    ToBitsAt(POLL, 32, PRACC);
    ToBitsAt(POLL, 32, PROBEN);
    ToBitsAt(POLL, 32, PROBTRAP);
  }

  /** A poll that sends zeros disables the probe, and completes an access that is pending. */
  lemma ZeroControl(r: Registers)
    requires r.ir == ToBits(ETAP_CONTROL, 5)
    ensures |Capture(r)| == 32 && Capture(r)[PRACC] == r.ready
    ensures Update(r, ToBits(0, 32)) == Complete(r.(probeOn := false))
  {
    hide FromBits, Bit, Acknowledge;
    assert r == Select(r, ETAP_CONTROL);
    SelectCode(r, ETAP_CONTROL);
    ControlBits();
    ToBitsAt(0, 32, PRACC);
    ToBitsAt(0, 32, PROBEN);
  }

  /** Releasing completes the pending access. */
  lemma ReleaseControl(r: Registers)
    ensures var s := Select(r, ETAP_CONTROL);
            && |Capture(s)| == 32
            && Update(s, ToBits(RELEASE, 32)) == Complete(s.(probeOn := true))
  {
    hide FromBits, Bit, Acknowledge;
    SelectCode(r, ETAP_CONTROL);
    ControlBits();
    ToBitsAt(RELEASE, 32, PRACC);
    ToBitsAt(RELEASE, 32, PROBEN);
    ToBitsAt(RELEASE, 32, PROBTRAP);
  }

  /** The data register takes the word, and shows a word waiting in the other direction. */
  lemma AccessData(r: Registers, bits: Bits32)
    ensures var s := Select(r, ETAP_DATA);
            && |Capture(s)| == 32 && Update(s, bits) == s.(data := bits)
            && (r.out != [] ==> Capture(s) == ToBits(r.out[0], 32))
  {
    hide FromBits;
    SelectCode(r, ETAP_DATA);
  }

  lemma AccessFastData(r: Registers, w: Word)
    ensures var s := Select(r, ETAP_FASTDATA);
            && Capture(s) == [r.ready] + ToBits(if r.out == [] then 0 else r.out[0], 32)
            && Update(s, [false] + ToBits(w, 32)) == FastTransfer(s, w)
  {
    hide FromBits;
    SelectCode(r, ETAP_FASTDATA);
    WordBits(w);
    assert ([false] + ToBits(w, 32))[1..] == ToBits(w, 32);
  }

  lemma WordBits(w: Word)
    ensures WordOf(ToBits(w, 32)) == w
  {
    Pow2Values();
    RoundTrip(w, 32);
  }

  /** After a first poll that finds an access pending. */
  function Polled(r: Registers): Registers
  {
    Select(r, ETAP_CONTROL).(probeOn := true)
  }

  /** After later polls that find none: the probe is off. */
  function Missed(r: Registers): Registers
  {
    Select(r, ETAP_CONTROL).(probeOn := false, ready := false)
  }

  /** After a later poll that finds one: that poll's own zeros have switched the probe off
      and completed the access, with whatever the data register contained. */
  function Late(r: Registers): Registers
  {
    Acknowledge(Select(r, ETAP_CONTROL).(probeOn := false, ready := true))
  }

  /** The outcomes of polling a control register up to `retries` times more. */
  ghost predicate Waited(r: Registers, s: Registers, ok: bool, retries: nat)
  {
    if r.ready then ok && s == Polled(r)
    else if ok then retries > 0 && s == Late(r)
    else s == if retries > 0 then Missed(r) else Polled(r)
  }

  /** Sending a word through the data register and releasing the processor. */
  function SupplyBits(r: Registers, bits: Bits32): Registers
  {
    Complete(Select(r, ETAP_CONTROL).(probeOn := true, data := bits))
  }

  /** Supplying an instruction. */
  function Supply(r: Registers, w: Word): Registers
  {
    SupplyBits(r, ToBits(w, 32))
  }

  lemma SupplySteps(r: Registers, bits: Bits32)
    ensures var loaded := Select(r, ETAP_DATA).(data := bits);
            Complete(Select(loaded, ETAP_CONTROL).(probeOn := true)) == SupplyBits(r, bits)
    ensures SupplyBits(Polled(r), bits) == SupplyBits(r, bits)
  {
  }

  /** With an access pending and no store waiting, the instruction is queued and the rest of
      the traffic is not touched. */
  lemma SupplyQueues(r: Registers, w: Word)
    requires r.out == [] && r.ready
    ensures Supply(r, w).probe == r.probe + [w]
    ensures Supply(r, w).fifo == r.fifo && Supply(r, w).out == [] && Supply(r, w).ready == r.ready
  {
    WordBits(w);
  }

  /** When a poll succeeds late, the processor gets the previous instruction a second time
      before it gets the new one. */
  lemma LateSupplyRepeats(r: Registers, v: Word, w: Word)
    requires r.out == [] && r.ready
    ensures var s := Supply(r, v).(ready := false);
            Supply(Late(s), w).probe == r.probe + [v, v, w]
  {
    WordBits(v);
    WordBits(w);
    hide ToBits;
  }

  /** An access of exactly the register's length writes the bits sent and returns the bits
      captured. */
  lemma FullAccess(d: Device, bits: seq<bool>, offset: nat, got: seq<bool>)
    requires Tap.Valid(d) && d.st.RunTestIdle? && bits != [] && |bits| == |Capture(d.regs)|
    requires offset + |got| <= |bits|
    requires forall k: nat :: k < |got| ==>
               var e := Clocks(d, DataPairs(bits)[..3 + offset + k]); e.driven ==> got[k] == e.tdo
    ensures Clocks(d, DataPairs(bits)).st.RunTestIdle?
    ensures Clocks(d, DataPairs(bits)).regs == Update(d.regs, bits)
    ensures got == Capture(d.regs)[offset..offset + |got|]
  {
    hide Clock, Clocks, Capture, Update, DataPairs;
    DataAccess(d, bits);
    var all := Capture(d.regs) + bits;
    assert all[|bits|..] == bits;
    forall k: nat | k < |got|
      ensures got[k] == Capture(d.regs)[offset + k]
    {
      DataAccessReads(d, bits, offset + k);
      assert 3 + (offset + k) == 3 + offset + k;
      assert all[offset + k] == Capture(d.regs)[offset + k];
    }
  }
}
