/** What the programmer's clock sequences do to the target: loading an instruction,
    shifting a data register, resetting the controller. */
module TapRuns {
  import opened Words
  import opened Bits
  import opened Tap

  /** TMS bits of a mode, least significant first, with TDI low. */
  function ModePairs(mode: nat, n: nat): seq<Pair>
  {
    seq(n, i requires 0 <= i < n => Pair(Bit(mode, i), false))
  }

  /** The bits of a register access, TMS high on the last one. */
  function ShiftPairs(bits: seq<bool>): seq<Pair>
  {
    seq(|bits|, i requires 0 <= i < |bits| => Pair(i == |bits| - 1, bits[i]))
  }

  const TO_SHIFT_IR: seq<Pair> := [Pair(true, false), Pair(true, false), Pair(false, false), Pair(false, false)]
  const TO_SHIFT_DR: seq<Pair> := [Pair(true, false), Pair(false, false), Pair(false, false)]
  const TO_IDLE: seq<Pair> := [Pair(true, false), Pair(false, false)]

  function CommandPairs(bits: seq<bool>): seq<Pair>
  {
    TO_SHIFT_IR + ShiftPairs(bits) + TO_IDLE
  }

  function DataPairs(bits: seq<bool>): seq<Pair>
  {
    TO_SHIFT_DR + ShiftPairs(bits) + TO_IDLE
  }

  /** The device in the middle of a shift. */
  function InShift(d: Device, st: TapState, shift: Chain): Device
  {
    d.(st := st, shift := shift, tdo := shift[0], driven := true)
  }

  lemma TwoClocks(d: Device, p: Pair, q: Pair)
    requires Tap.Valid(d)
    ensures Clocks(d, [p, q]) == Clock(Clock(d, p.tms, p.tdi), q.tms, q.tdi)
  {
    hide Clock, Tap.Valid;
    assert [p, q] == ([] + [p]) + [q];
    ClocksSnoc(d, [] + [p], q);
    ClocksSnoc(d, [], p);
  }

  /** Between states that neither capture, shift nor update, a clock only moves. */
  lemma Moves(d: Device, tms: bool, tdi: bool)
    requires Tap.Valid(d)
    requires !d.st.CaptureDR? && !d.st.CaptureIR? && !d.st.ShiftDR? && !d.st.ShiftIR?
    requires var n := NextState(d.st, tms);
             n.SelectDR? || n.SelectIR? || n.CaptureDR? || n.CaptureIR? || n.RunTestIdle?
    ensures Clock(d, tms, tdi) == d.(st := NextState(d.st, tms), driven := false)
  {
    hide Capture, Update;
  }

  lemma EntersShiftDR(d: Device)
    requires Tap.Valid(d) && d.st.RunTestIdle?
    ensures Clocks(d, TO_SHIFT_DR) == InShift(d, ShiftDR, Capture(d.regs))
  {
    hide Capture, Clock;
    assert TO_SHIFT_DR == [Pair(true, false), Pair(false, false)] + [Pair(false, false)];
    ClocksSnoc(d, [Pair(true, false), Pair(false, false)], Pair(false, false));
    TwoClocks(d, Pair(true, false), Pair(false, false));
    Moves(d, true, false);
    var e := d.(st := SelectDR, driven := false);
    Moves(e, false, false);
    Captures(e.(st := CaptureDR));
  }

  /** The clock that loads the selected register into the chain. */
  lemma Captures(d: Device)
    requires Tap.Valid(d) && d.st.CaptureDR?
    ensures Clock(d, false, false) == InShift(d, ShiftDR, Capture(d.regs))
  {
    hide Capture, Update;
  }

  lemma ReachesSelectIR(d: Device)
    requires Tap.Valid(d) && d.st.RunTestIdle?
    ensures Clocks(d, [Pair(true, false), Pair(true, false)]) == d.(st := SelectIR, driven := false)
  {
    hide Clock;
    TwoClocks(d, Pair(true, false), Pair(true, false));
    Moves(d, true, false);
    Moves(d.(st := SelectDR, driven := false), true, false);
  }

  lemma CapturesIR(d: Device)
    requires Tap.Valid(d) && d.st.SelectIR?
    ensures Clocks(d, [Pair(false, false), Pair(false, false)]) 
         == InShift(d, ShiftIR, CAPTURED_IR)
  {
    hide Update, Capture;
    TwoClocks(d, Pair(false, false), Pair(false, false));
    Moves(d, false, false);
  }

  lemma EntersShiftIR(d: Device)
    requires Tap.Valid(d) && d.st.RunTestIdle?
    ensures Clocks(d, TO_SHIFT_IR) == InShift(d, ShiftIR, [true, false, false, false, false])
  {
    hide Clock, Capture;
    var e := d.(st := SelectIR, driven := false);
    ReachesSelectIR(d);
    CapturesIR(e);
    assert TO_SHIFT_IR == [Pair(true, false), Pair(true, false)] + [Pair(false, false), Pair(false, false)];
    ClocksConcat(d, [Pair(true, false), Pair(true, false)], [Pair(false, false), Pair(false, false)]);
  }

  /** All but the last bit: the chain is a window that moves along the captured bits
      followed by the new ones. */
  lemma {:induction false} Shifts(d: Device, st: TapState, chain: Chain, bits: seq<bool>, k: nat)
    requires st.ShiftDR? || st.ShiftIR?
    requires Tap.Valid(InShift(d, st, chain)) && k < |bits|
    ensures var w := (chain + bits)[k..k + |chain|];
            Clocks(InShift(d, st, chain), ShiftPairs(bits)[..k]) == InShift(d, st, w)
    decreases k
  {
    hide Clock, Capture;
    var start := InShift(d, st, chain);
    if k == 0 {
      assert (chain + bits)[0..|chain|] == chain;
    } else {
      Shifts(d, st, chain, bits, k - 1);
      var pairs := ShiftPairs(bits);
      assert pairs[..k] == pairs[..k - 1] + [pairs[k - 1]];
      ClocksSnoc(start, pairs[..k - 1], pairs[k - 1]);
      WindowMoves(chain, bits, k - 1);
      ShiftClock(d, st, (chain + bits)[k - 1..k - 1 + |chain|], bits[k - 1]);
    }
  }

  lemma WindowMoves(chain: Chain, bits: seq<bool>, k: nat)
    requires k < |bits|
    ensures (chain + bits)[k..k + |chain|][1..] + [bits[k]] == (chain + bits)[k + 1..k + 1 + |chain|]
  {
    assert (chain + bits)[k + |chain|] == bits[k];
  }

  lemma ShiftClock(d: Device, st: TapState, chain: Chain, b: bool)
    requires st.ShiftDR? || st.ShiftIR?
    requires Tap.Valid(InShift(d, st, chain))
    ensures Clock(InShift(d, st, chain), false, b) == InShift(d, st, chain[1..] + [b])
  {
    hide Capture;
  }

  /** The last bit goes in on the way out of the shift state. */
  lemma LeavesShift(d: Device, st: TapState, chain: Chain, b: bool)
    requires st.ShiftDR? || st.ShiftIR?
    requires Tap.Valid(InShift(d, st, chain))
    ensures var x := if st.ShiftDR? then Exit1DR else Exit1IR;
            Clock(InShift(d, st, chain), true, b)
            == InShift(d, x, chain).(shift := chain[1..] + [b], driven := false)
  {
    hide Capture, Update;
  }

  lemma {:induction false} ShiftsAll(d: Device, st: TapState, chain: Chain, bits: seq<bool>)
    requires st.ShiftDR? || st.ShiftIR?
    requires Tap.Valid(InShift(d, st, chain)) && bits != []
    ensures var n := |bits|;
            var e := Clocks(InShift(d, st, chain), ShiftPairs(bits));
            && e.st == (if st.ShiftDR? then Exit1DR else Exit1IR)
            && e.shift == (chain + bits)[n..] && !e.driven && e.regs == d.regs
  {
    hide Clock, Capture;
    var n, pairs := |bits| - 1, ShiftPairs(bits);
    Shifts(d, st, chain, bits, n);
    assert pairs == pairs[..n] + [pairs[n]];
    ClocksSnoc(InShift(d, st, chain), pairs[..n], pairs[n]);
    var w := (chain + bits)[n..n + |chain|];
    LeavesShift(d, st, w, bits[n]);
    WindowMoves(chain, bits, n);
    assert (chain + bits)[n + 1..] == (chain + bits)[n + 1..n + 1 + |chain|];
  }

  lemma UpdatesDR(d: Device)
    requires Tap.Valid(d) && d.st.Exit1DR?
    ensures var e := Clocks(d, TO_IDLE);
            e.st.RunTestIdle? && !e.driven && e.regs == Update(d.regs, d.shift)
  {
    hide Capture, Update;
    TwoClocks(d, Pair(true, false), Pair(false, false));
  }

  lemma UpdatesIR(d: Device)
    requires Tap.Valid(d) && d.st.Exit1IR?
    ensures Clocks(d, TO_IDLE) == d.(st := RunTestIdle, regs := d.regs.(ir := d.shift), driven := false)
  {
    hide Capture, Update;
    TwoClocks(d, Pair(true, false), Pair(false, false));
  }

  /** A data register access of at least one bit, from Run-Test/Idle. It returns there;
      the register is updated with the last bits of what it captured followed by what was
      sent; and TDO shows those same bits in order, each one already visible after the
      clock before the one that shifts it out. */
  lemma DataAccess(d: Device, bits: seq<bool>)
    requires Tap.Valid(d) && d.st.RunTestIdle? && bits != []
    ensures var e := Clocks(d, DataPairs(bits));
            && e.st.RunTestIdle?
            && e.regs == Update(d.regs, (Capture(d.regs) + bits)[|bits|..])
  {
    hide Clock, Capture, Update;
    var chain := Capture(d.regs);
    EntersShiftDR(d);
    ShiftsAll(d, ShiftDR, chain, bits);
    ClocksConcat(d, TO_SHIFT_DR, ShiftPairs(bits));
    ClocksConcat(d, TO_SHIFT_DR + ShiftPairs(bits), TO_IDLE);
    UpdatesDR(Clocks(d, TO_SHIFT_DR + ShiftPairs(bits)));
  }

  lemma DataAccessReads(d: Device, bits: seq<bool>, k: nat)
    requires Tap.Valid(d) && d.st.RunTestIdle? && k < |bits|
    ensures var e := Clocks(d, DataPairs(bits)[..3 + k]);
            e.driven && e.tdo == (Capture(d.regs) + bits)[k]
  {
    hide Clock, Capture, Update;
    EntersShiftDR(d);
    Shifts(d, ShiftDR, Capture(d.regs), bits, k);
    ClocksConcat(d, TO_SHIFT_DR, ShiftPairs(bits)[..k]);
    assert DataPairs(bits)[..3 + k] == TO_SHIFT_DR + ShiftPairs(bits)[..k];
  }

  /** With no bits at all the same sequence strands the controller in Pause-DR: one bit
      is the least that brings it back to Run-Test/Idle. */
  lemma DataAccessReturnsIffSomeBit(d: Device, bits: seq<bool>)
    requires Tap.Valid(d) && d.st.RunTestIdle?
    ensures Clocks(d, DataPairs(bits)).st.RunTestIdle? <==> bits != []
  {
    hide Clock, Capture, Update;
    if bits == [] {
      EntersShiftDR(d);
      assert DataPairs(bits) == TO_SHIFT_DR + TO_IDLE;
      ClocksConcat(d, TO_SHIFT_DR, TO_IDLE);
      TwoClocks(Clocks(d, TO_SHIFT_DR), Pair(true, false), Pair(false, false));
    } else {
      DataAccess(d, bits);
    }
  }

  /** The pattern that an instruction access captures. */
  const CAPTURED_IR: Bits5 := [true, false, false, false, false]

  /** An instruction access of any number of bits from one on, from Run-Test/Idle, returns
      there. The instruction is the last five of the captured pattern followed by the bits
      sent, and nothing else changes. */
  lemma CommandAccess(d: Device, bits: seq<bool>)
    requires Tap.Valid(d) && d.st.RunTestIdle? && bits != []
    ensures var e := Clocks(d, CommandPairs(bits));
            e.st.RunTestIdle? && e.regs == d.regs.(ir := (CAPTURED_IR + bits)[|bits|..])
  {
    hide Clock, Capture, Update;
    EntersShiftIR(d);
    ShiftsAll(d, ShiftIR, CAPTURED_IR, bits);
    ClocksConcat(d, TO_SHIFT_IR, ShiftPairs(bits));
    ClocksConcat(d, TO_SHIFT_IR + ShiftPairs(bits), TO_IDLE);
    UpdatesIR(Clocks(d, TO_SHIFT_IR + ShiftPairs(bits)));
  }

  /** Five bits become the instruction. */
  lemma CommandLoads(d: Device, bits: seq<bool>)
    requires Tap.Valid(d) && d.st.RunTestIdle? && |bits| == 5
    ensures var e := Clocks(d, CommandPairs(bits));
            e.st.RunTestIdle? && e.regs == d.regs.(ir := bits)
  {
    hide Clock, Clocks, Capture, Update, CommandPairs;
    CommandAccess(d, bits);
    assert (CAPTURED_IR + bits)[5..] == bits;
  }

  /** With no bits the sequence strands the controller in Pause-IR. */
  lemma CommandReturnsIffSomeBit(d: Device, bits: seq<bool>)
    requires Tap.Valid(d) && d.st.RunTestIdle?
    ensures Clocks(d, CommandPairs(bits)).st.RunTestIdle? <==> bits != []
  {
    hide Clock, Capture, Update;
    if bits == [] {
      EntersShiftIR(d);
      assert CommandPairs(bits) == TO_SHIFT_IR + TO_IDLE;
      ClocksConcat(d, TO_SHIFT_IR, TO_IDLE);
      TwoClocks(Clocks(d, TO_SHIFT_IR), Pair(true, false), Pair(false, false));
      LeavesIR(Clocks(d, TO_SHIFT_IR));
    } else {
      CommandAccess(d, bits);
    }
  }

  lemma LeavesIR(d: Device)
    requires Tap.Valid(d) && d.st.ShiftIR?
    ensures Clock(Clock(d, true, false), false, false).st.PauseIR?
  {
    hide Capture, Update;
  }

  /** State after `n` clocks with TMS high: within five of them, Test-Logic-Reset. */
  function Ones(st: TapState, n: nat): TapState
    decreases n
  {
    if n == 0 then st else NextState(Ones(st, n - 1), true)
  }

  lemma {:induction false} OnesRun(d: Device, n: nat)
    requires Tap.Valid(d)
    ensures Clocks(d, Highs(n)).st == Ones(d.st, n)
    decreases n
  {
    hide Clock, Capture, Update;
    if n > 0 {
      assert Highs(n) == Highs(n - 1) + [Pair(true, false)];
      ClocksSnoc(d, Highs(n - 1), Pair(true, false));
      OnesRun(d, n - 1);
    }
  }

  lemma FiveOnesReset(st: TapState)
    ensures Ones(st, 5).TestLogicReset?
  {
    assert Ones(st, 2) == NextState(NextState(st, true), true);
    assert Ones(st, 4) == NextState(NextState(Ones(st, 2), true), true);
  }

  /** The mode 011111 resets the controller from every state, even in the middle of an
      access, and leaves it in Run-Test/Idle with the identification register selected. */
  lemma ModeResets(d: Device)
    requires Tap.Valid(d)
    ensures var e := Clocks(d, ModePairs(0x1F, 6));
            e.st.RunTestIdle? && e.regs.ir == IDCODE
  {
    hide Clock, Capture, Update;
    ModeIsHighs();
    OnesRun(d, 5);
    FiveOnesReset(d.st);
    ClocksSnoc(d, Highs(5), Pair(false, false));
    assert Highs(5) == Highs(4) + [Pair(true, false)];
    ClocksSnoc(d, Highs(4), Pair(true, false));
    ResetSelectsIdcode(Clocks(d, Highs(4)));
    LeavesReset(Clocks(d, Highs(5)));
  }

  lemma ResetSelectsIdcode(d: Device)
    requires Tap.Valid(d) && NextState(d.st, true).TestLogicReset?
    ensures Clock(d, true, false).regs.ir == IDCODE
  {
    hide Capture, Update;
  }

  lemma LeavesReset(d: Device)
    requires Tap.Valid(d) && d.st.TestLogicReset?
    ensures Clock(d, false, false).st.RunTestIdle? && Clock(d, false, false).regs.ir == d.regs.ir
  {
    hide Capture, Update;
  }

  /** On the short way from Run-Test/Idle through reset nothing but the instruction changes. */
  lemma ResetClock(d: Device, tms: bool)
    requires Tap.Valid(d)
    requires d.st.RunTestIdle? || d.st.SelectDR? || d.st.SelectIR? || d.st.TestLogicReset?
    requires tms || d.st.TestLogicReset?
    ensures var e := Clock(d, tms, false);
            e.regs == if NextState(d.st, tms).TestLogicReset? then d.regs.(ir := IDCODE) else d.regs
  {
    hide Capture, Update;
  }

  function Highs(n: nat): seq<Pair>
  {
    seq(n, _ => Pair(true, false))
  }

  lemma {:induction false} HighsFromIdle(d: Device, n: nat)
    requires Tap.Valid(d) && d.st.RunTestIdle? && n <= 5
    ensures var e := Clocks(d, Highs(n));
            && e.st == (if n == 0 then RunTestIdle else if n == 1 then SelectDR
                        else if n == 2 then SelectIR else TestLogicReset)
            && e.regs == if n < 3 then d.regs else d.regs.(ir := IDCODE)
    decreases n
  {
    hide Clock;
    if n > 0 {
      HighsFromIdle(d, n - 1);
      assert Highs(n) == Highs(n - 1) + [Pair(true, false)];
      ClocksSnoc(d, Highs(n - 1), Pair(true, false));
      ResetClock(Clocks(d, Highs(n - 1)), true);
    }
  }

  lemma ModeFromIdle(d: Device)
    requires Tap.Valid(d) && d.st.RunTestIdle?
    ensures Clocks(d, ModePairs(0x1F, 6)).st.RunTestIdle?
    ensures Clocks(d, ModePairs(0x1F, 6)).regs == d.regs.(ir := IDCODE)
  {
    hide Clock;
    ModeIsHighs();
    HighsFromIdle(d, 5);
    ClocksSnoc(d, Highs(5), Pair(false, false));
    ResetClock(Clocks(d, Highs(5)), false);
  }

  lemma ModeIsHighs()
    ensures ModePairs(0x1F, 6) == Highs(5) + [Pair(false, false)]
  {
    assert Bit(0x1F, 0) && Bit(0x1F, 1) && Bit(0x1F, 2) && Bit(0x1F, 3) && Bit(0x1F, 4) && !Bit(0x1F, 5) by {
      assert Bit(0x0F, 2) == Bit(0x07, 1) && Bit(0x07, 2) && Bit(0x07, 1) && !Bit(0x07, 3);
      assert Bit(0x0F, 3) == Bit(0x07, 2) && Bit(0x0F, 4) == Bit(0x07, 3);
    }
  }
}
