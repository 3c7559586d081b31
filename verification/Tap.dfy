/** The target's end of the wire: an IEEE Std 1149.1 TAP controller (clause 6.1)
    in front of the EJTAG registers through which a debug probe serves the processor. */
module Tap {
  import opened Words
  import opened Bits

  datatype TapState =
    | TestLogicReset | RunTestIdle
    | SelectDR | CaptureDR | ShiftDR | Exit1DR | PauseDR | Exit2DR | UpdateDR
    | SelectIR | CaptureIR | ShiftIR | Exit1IR | PauseIR | Exit2IR | UpdateIR

  function NextState(st: TapState, tms: bool): TapState
  {
    match st
    case TestLogicReset => if tms then TestLogicReset else RunTestIdle
    case RunTestIdle => if tms then SelectDR else RunTestIdle
    case SelectDR => if tms then SelectIR else CaptureDR
    case CaptureDR => if tms then Exit1DR else ShiftDR
    case ShiftDR => if tms then Exit1DR else ShiftDR
    case Exit1DR => if tms then UpdateDR else PauseDR
    case PauseDR => if tms then Exit2DR else PauseDR
    case Exit2DR => if tms then UpdateDR else ShiftDR
    case UpdateDR => if tms then SelectDR else RunTestIdle
    case SelectIR => if tms then TestLogicReset else CaptureIR
    case CaptureIR => if tms then Exit1IR else ShiftIR
    case ShiftIR => if tms then Exit1IR else ShiftIR
    case Exit1IR => if tms then UpdateIR else PauseIR
    case PauseIR => if tms then Exit2IR else PauseIR
    case Exit2IR => if tms then UpdateIR else ShiftIR
    case UpdateIR => if tms then SelectDR else RunTestIdle
  }

  type Bits5 = s: seq<bool> | |s| == 5 witness [false, false, false, false, false]
  type Bits32 = s: seq<bool> | |s| == 32 witness seq(32, _ => false)
  type Chain = s: seq<bool> | |s| > 0 witness [false]

  /** `ir` is the current instruction. `ready` is the PrAcc bit: the processor waits
      for the probe. `control` are the other bits that the EJTAG control register
      captures, `data` is the EJTAG data register, `other` the register that any other
      instruction selects. `probeOn`: the probe is enabled to serve the processor. The
      queues are the words exchanged with the processor: instructions supplied,
      FASTDATA words sent, words stored by the processor and not yet collected. */
  datatype Registers = Registers(ir: Bits5, ready: bool, control: Bits32, probeOn: bool,
                                 data: Bits32, other: Chain,
                                 probe: seq<Word>, fifo: seq<Word>, out: seq<Word>)

  /** `shift` is the chain between TDI and TDO; `tdo` is the level on TDO when `driven`. */
  datatype Device = Device(st: TapState, shift: Chain, tdo: bool, driven: bool, regs: Registers)

  const IDCODE: Bits5 := [true, false, false, false, false]
  const ETAP_DATA: nat := 0x09
  const ETAP_CONTROL: nat := 0x0A
  const ETAP_FASTDATA: nat := 0x0E

  /** Bit positions in the EJTAG control register. */
  const PRACC: nat := 18
  const PROBEN: nat := 15
  const PROBTRAP: nat := 14

  /** Contents of the selected data register at Capture-DR. */
  function Capture(r: Registers): Chain
  {
    var code := FromBits(r.ir);
    if code == ETAP_CONTROL then r.control[PRACC := r.ready]
    else if code == ETAP_DATA then if r.out == [] then r.data else ToBits(r.out[0], 32)
    else if code == ETAP_FASTDATA then [r.ready] + ToBits(if r.out == [] then 0 else r.out[0], 32)
    else r.other
  }

  predicate InstructionPath(st: TapState)
  {
    st.ShiftIR? || st.Exit1IR? || st.PauseIR? || st.Exit2IR? || st.UpdateIR?
  }

  predicate DataPath(st: TapState)
  {
    st.ShiftDR? || st.Exit1DR? || st.PauseDR? || st.Exit2DR?
  }

  ghost predicate Valid(d: Device)
  {
    && (InstructionPath(d.st) ==> |d.shift| == 5)
    && (DataPath(d.st) ==> |d.shift| == |Capture(d.regs)|)
  }

  /** Between the two edges of TCK. */
  ghost predicate Raised(d: Device)
  {
    && (InstructionPath(d.st) ==> |d.shift| == 5)
    && (DataPath(d.st) || d.st.UpdateDR? ==> |d.shift| == |Capture(d.regs)|)
  }

  function WordOf(bits: Bits32): Word
  {
    PackedWord(bits);
    FromBits(bits)
  }

  /** The pending processor access completes: a store is collected by the probe, a
      fetch gets the data register as its instruction. */
  function Acknowledge(r: Registers): Registers
  {
    if r.out != [] then r.(out := r.out[1..]) else r.(probe := r.probe + [WordOf(r.data)])
  }

  /** Writing PrAcc as zero: nothing happens if no access is pending. The processor makes
      its next access at once, so that readiness stays as it is. */
  function Complete(r: Registers): Registers
  {
    if r.ready then Acknowledge(r) else r
  }

  /** A FASTDATA transfer: a store is collected, a load gets the word; with no access pending
      nothing happens. */
  function FastTransfer(r: Registers, w: Word): Registers
  {
    if !r.ready then r
    else if r.out != [] then r.(out := r.out[1..]) else r.(fifo := r.fifo + [w])
  }

  /** Update-DR with the chain holding `bits`. Writing PrAcc as zero completes the
      pending access; a one leaves it. */
  function Update(r: Registers, bits: Chain): Registers
    requires |bits| == |Capture(r)|
  {
    var code := FromBits(r.ir);
    if code == ETAP_CONTROL then
      var e := r.(probeOn := bits[PROBEN] && bits[PROBTRAP]);
      if bits[PRACC] then e else Complete(e)
    else if code == ETAP_DATA then r.(data := bits)
    else if code == ETAP_FASTDATA then if bits[0] then r else FastTransfer(r, WordOf(bits[1..]))
    else r.(other := bits)
  }

  /** Rising edge of TCK: act on the current state, then move. */
  function Rise(d: Device, tms: bool, tdi: bool): (e: Device)
    requires Valid(d)
    ensures e.st == NextState(d.st, tms) && Raised(e)
    ensures e.tdo == d.tdo && e.driven == d.driven && e.regs == d.regs
  {
    var shift: Chain :=
      match d.st
      case CaptureDR => Capture(d.regs)
      case CaptureIR => [true, false, false, false, false]
      case ShiftDR => d.shift[1..] + [tdi]
      case ShiftIR => d.shift[1..] + [tdi]
      case _ => d.shift;
    d.(st := NextState(d.st, tms), shift := shift)
  }

  /** Falling edge of TCK: updates take effect, and TDO changes (clause 4.5). */
  function Fall(d: Device): (e: Device)
    requires Raised(d)
    ensures e.st == d.st && Valid(e)
  {
    hide Update, Capture;
    match d.st
    case ShiftDR => d.(tdo := d.shift[0], driven := true)
    case ShiftIR => d.(tdo := d.shift[0], driven := true)
    case UpdateDR => d.(regs := Update(d.regs, d.shift), driven := false)
    case UpdateIR => d.(regs := d.regs.(ir := d.shift), driven := false)
    case TestLogicReset => d.(regs := d.regs.(ir := IDCODE), driven := false)
    case _ => d.(driven := false)
  }

  /** One full cycle of TCK. */
  function Clock(d: Device, tms: bool, tdi: bool): (e: Device)
    requires Valid(d)
    ensures Valid(e) && e.st == NextState(d.st, tms)
  {
    Fall(Rise(d, tms, tdi))
  }

  /** TMS and TDI of one clock. */
  datatype Pair = Pair(tms: bool, tdi: bool)

  function Clocks(d: Device, pairs: seq<Pair>): (e: Device)
    requires Valid(d)
    ensures Valid(e)
    decreases |pairs|
  {
    if pairs == [] then d
    else
      var n := |pairs| - 1;
      Clock(Clocks(d, pairs[..n]), pairs[n].tms, pairs[n].tdi)
  }

  lemma ClocksSnoc(d: Device, pairs: seq<Pair>, p: Pair)
    requires Valid(d)
    ensures Clocks(d, pairs + [p]) == Clock(Clocks(d, pairs), p.tms, p.tdi)
  {
    assert (pairs + [p])[..|pairs|] == pairs;
  }

  lemma {:induction false} ClocksConcat(d: Device, a: seq<Pair>, b: seq<Pair>)
    requires Valid(d)
    ensures Clocks(d, a + b) == Clocks(Clocks(d, a), b)
    decreases |b|
  {
    hide Clock, Valid;
    if b == [] {
      assert a + b == a;
    } else {
      var n := |b| - 1;
      assert b == b[..n] + [b[n]];
      assert a + b == (a + b[..n]) + [b[n]];
      ClocksSnoc(d, a + b[..n], b[n]);
      ClocksConcat(d, a, b[..n]);
    }
  }
}
