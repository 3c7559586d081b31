/** The part of MIPS32 that the downloaded programs use, in EJTAG debug mode:
    branch delay slots, instruction fetch from the probe or from RAM, and the
    FASTDATA window through which the probe sends and receives words. */
module Mips {
  import opened Words

  type Reg = r: int | 0 <= r < 32

  datatype Instr =
    | Nop
    | Lui(rt: Reg, imm: int)
    | Ori(rt: Reg, rs: Reg, imm: int)
    | Addiu(rt: Reg, rs: Reg, offset: int)
    | Srl(rd: Reg, rt: Reg, shift: Reg)
    | Lw(rt: Reg, base: Reg, offset: int)
    | Sw(rt: Reg, base: Reg, offset: int)
    | Beq(rs: Reg, rt: Reg, offset: int)
    | Bne(rs: Reg, rt: Reg, offset: int)
    | Jr(rs: Reg)
    | Unknown(word: Word)

  /** A 16-bit immediate read as a signed number. */
  function Signed16(imm: int): int
    requires 0 <= imm < 0x1_0000
  {
    if imm < 0x8000 then imm else imm - 0x1_0000
  }

  function Decode(w: Word): Instr
  {
    var high := w / 0x1_0000;
    DecodeFields(w, high / 32 / 32, high / 32 % 32, high % 32, w % 0x1_0000)
  }

  function DecodeFields(w: Word, op: nat, rs: Reg, rt: Reg, imm: nat): Instr
    requires imm < 0x1_0000
  {
    if w == 0 then Nop
    else if op == 0 then DecodeSpecial(w, rs, rt, imm)
    else if op == 0x04 then Beq(rs, rt, Signed16(imm))
    else if op == 0x05 then Bne(rs, rt, Signed16(imm))
    else if op == 0x09 then Addiu(rt, rs, Signed16(imm))
    else if op == 0x0D then Ori(rt, rs, imm)
    else if op == 0x0F && rs == 0 then Lui(rt, imm)
    else if op == 0x23 then Lw(rt, rs, Signed16(imm))
    else if op == 0x2B then Sw(rt, rs, Signed16(imm))
    else Unknown(w)
  }

  /** Opcode 0: the function is in the low six bits. */
  function DecodeSpecial(w: Word, rs: Reg, rt: Reg, imm: int): Instr
    requires 0 <= imm < 0x1_0000
  {
    var fn := imm % 64;
    var sa: Reg := imm / 64 % 32;
    var rd: Reg := imm / 64 / 32;
    if fn == 0x02 && rs == 0 then Srl(rd, rt, sa)
    else if fn == 0x08 && rt == 0 && rd == 0 && sa == 0 then Jr(rs)
    else Unknown(w)
  }

  /** An instruction word put together from its fields. */
  function Fields(op: nat, rs: Reg, rt: Reg, imm: nat): Word
    requires op < 64 && imm < 0x1_0000
  {
    op * 0x400_0000 + rs * 0x20_0000 + rt * 0x1_0000 + imm
  }

  lemma FieldsSplit(op: nat, rs: Reg, rt: Reg, imm: nat)
    requires op < 64 && imm < 0x1_0000
    ensures var w := Fields(op, rs, rt, imm);
            && w % 0x1_0000 == imm
            && w / 0x1_0000 % 32 == rt
            && w / 0x1_0000 / 32 % 32 == rs
            && w / 0x1_0000 / 32 / 32 == op
  {
    var w := Fields(op, rs, rt, imm);
    assert w / 0x1_0000 == (op * 32 + rs) * 32 + rt;
    assert w / 0x1_0000 / 32 == op * 32 + rs;
  }

  lemma FieldsZero(op: nat, rs: Reg, rt: Reg, imm: nat)
    requires op < 64 && imm < 0x1_0000
    ensures Fields(op, rs, rt, imm) == 0 <==> op == rs == rt == imm == 0
  {
  }

  lemma DecodesFields(op: nat, rs: Reg, rt: Reg, imm: nat)
    requires op < 64 && imm < 0x1_0000
    ensures Decode(Fields(op, rs, rt, imm)) == DecodeFields(Fields(op, rs, rt, imm), op, rs, rt, imm)
    ensures Fields(op, rs, rt, imm) == 0 <==> op == rs == rt == imm == 0
  {
    hide DecodeFields, Fields;
    FieldsZero(op, rs, rt, imm);
    FieldsSplit(op, rs, rt, imm);
  }

  /** `mem` is keyed by physical address. `probe` holds the instructions the probe
      has supplied, `fifo` the FASTDATA words it has sent, `out` the words the
      processor has stored to FASTDATA and the probe has not yet collected. */
  datatype Cpu = Cpu(reg: seq<Word>, pc: Word, npc: Word, mem: map<Word, Word>,
                     probe: seq<Word>, fifo: seq<Word>, out: seq<Word>)

  ghost predicate Valid(s: Cpu)
  {
    |s.reg| == 32 && s.reg[0] == 0
  }

  /** kseg0 and kseg1 are two windows on the same physical memory. */
  function Phys(a: Word): Word
  {
    if 0x8000_0000 <= a < 0xA000_0000 then a - 0x8000_0000
    else if 0xA000_0000 <= a < 0xC000_0000 then a - 0xA000_0000
    else a
  }

  const FASTDATA: Word := 0xFF20_0000

  predicate IsFastData(a: Word)
  {
    FASTDATA <= a < FASTDATA + 16
  }

  /** The debug segment, served by the probe. */
  predicate InDmseg(a: Word)
  {
    FASTDATA <= a < 0xFF30_0000
  }

  /** Instruction fetches that the probe answers. */
  predicate ProbeFetch(a: Word)
  {
    0xFF20_0200 <= a < 0xFF30_0000
  }

  function Wrap(x: int): Word
  {
    x % 0x1_0000_0000
  }

  function SetReg(s: Cpu, r: Reg, v: Word): (t: Cpu)
    requires Valid(s)
    ensures Valid(t)
  {
    if r == 0 then s else s.(reg := s.reg[r := v])
  }

  /** Move on to the delay-slot successor. */
  function Next(s: Cpu): Cpu
  {
    s.(pc := s.npc, npc := Wrap(s.npc + 4))
  }

  function Branch(s: Cpu, taken: bool, offset: int): Cpu
  {
    s.(pc := s.npc, npc := if taken then Wrap(s.pc + 4 + 4 * offset) else Wrap(s.npc + 4))
  }

  function Load(s: Cpu, r: Reg, a: Word): (t: Option<Cpu>)
    requires Valid(s)
    ensures t.Some? ==> Valid(t.value)
  {
    if a % 4 != 0 then None
    else if IsFastData(a) then
      if s.fifo == [] then None else Some(Next(SetReg(s, r, s.fifo[0]).(fifo := s.fifo[1..])))
    else if InDmseg(a) || Phys(a) !in s.mem then None
    else Some(Next(SetReg(s, r, s.mem[Phys(a)])))
  }

  function Store(s: Cpu, v: Word, a: Word): (t: Option<Cpu>)
    requires Valid(s)
    ensures t.Some? ==> Valid(t.value)
  {
    if a % 4 != 0 then None
    else if IsFastData(a) then Some(Next(s.(out := s.out + [v])))
    else if InDmseg(a) then None
    else Some(Next(s.(mem := s.mem[Phys(a) := v])))
  }

  /** OR with a zero-extended immediate. */
  function OrImmediate(v: Word, imm: int): Word
    requires 0 <= imm < 0x1_0000
  {
    Wrap(Or(v, imm))
  }

  /** After lui, ori fills the low half. */
  lemma OrHalf(high: int, imm: int)
    requires 0 <= high < 0x1_0000 && 0 <= imm < 0x1_0000
    ensures OrImmediate(high * 0x1_0000, imm) == high * 0x1_0000 + imm
  {
    HalfPower();
    OrDisjoint(high, 16, imm);
    hide Or, Pow2;
  }

  lemma HalfPower()
    ensures Pow2(16) == 0x1_0000
  {
    assert Pow2(4) == 16;
    assert Pow2(8) == 256;
    assert Pow2(12) == 4096;
  }

  function ShiftRight(v: Word, n: nat): Word
    decreases n
  {
    if n == 0 then v else ShiftRight(v / 2, n - 1)
  }

  function Execute(s: Cpu, i: Instr): (t: Option<Cpu>)
    requires Valid(s)
    ensures t.Some? ==> Valid(t.value)
  {
    match i
    case Nop => Some(Next(s))
    case Lui(rt, imm) => Some(Next(SetReg(s, rt, Wrap(imm * 0x1_0000))))
    case Ori(rt, rs, imm) =>
      if 0 <= imm < 0x1_0000 then Some(Next(SetReg(s, rt, OrImmediate(s.reg[rs], imm)))) else None
    case Addiu(rt, rs, offset) => Some(Next(SetReg(s, rt, Wrap(s.reg[rs] + offset))))
    case Srl(rd, rt, shift) => Some(Next(SetReg(s, rd, ShiftRight(s.reg[rt], shift))))
    case Lw(rt, base, offset) => Load(s, rt, Wrap(s.reg[base] + offset))
    case Sw(rt, base, offset) => Store(s, s.reg[rt], Wrap(s.reg[base] + offset))
    case Beq(rs, rt, offset) => Some(Branch(s, s.reg[rs] == s.reg[rt], offset))
    case Bne(rs, rt, offset) => Some(Branch(s, s.reg[rs] != s.reg[rt], offset))
    case Jr(rs) => Some(s.(pc := s.npc, npc := s.reg[rs]))
    case Unknown(_) => None
  }

  function Fetch(s: Cpu): Option<Word>
  {
    if ProbeFetch(s.pc) then
      if s.probe == [] then None else Some(s.probe[0])
    else if s.pc % 4 == 0 && Phys(s.pc) in s.mem then Some(s.mem[Phys(s.pc)])
    else None
  }

  /** The fetched instruction leaves the probe's queue. */
  function Fetched(s: Cpu): Cpu
    requires Fetch(s).Some?
  {
    if ProbeFetch(s.pc) then s.(probe := s.probe[1..]) else s
  }

  /** One instruction, or None when the processor waits for the probe or traps. */
  function TryStep(s: Cpu): (t: Option<Cpu>)
    requires Valid(s)
    ensures t.Some? ==> Valid(t.value)
  {
    match Fetch(s)
    case None => None
    case Some(w) => Execute(Fetched(s), Decode(w))
  }

  function Step(s: Cpu): (t: Cpu)
    requires Valid(s)
    ensures Valid(t)
  {
    match TryStep(s)
    case None => s
    case Some(t) => t
  }

  ghost function Run(s: Cpu, n: nat): (t: Cpu)
    requires Valid(s)
    ensures Valid(t)
    decreases n
  {
    if n == 0 then s else Run(Step(s), n - 1)
  }

  ghost predicate Reaches(s: Cpu, t: Cpu)
    requires Valid(s)
  {
    exists n: nat :: Run(s, n) == t
  }

  lemma ReachesSelf(s: Cpu)
    requires Valid(s)
    ensures Reaches(s, s)
  {
    assert Run(s, 0) == s;
  }

  lemma ReachesStep(s: Cpu, t: Cpu)
    requires Valid(s) && Reaches(Step(s), t)
    ensures Reaches(s, t)
  {
    var n: nat :| Run(Step(s), n) == t;
    assert Run(s, n + 1) == t;
  }

  lemma {:induction false} RunAdds(s: Cpu, m: nat, n: nat)
    requires Valid(s)
    ensures Run(s, m + n) == Run(Run(s, m), n)
    decreases m
  {
    hide Step;
    if m > 0 {
      RunAdds(Step(s), m - 1, n);
    }
  }

  /** A run of `n` steps from `s` to `t` that is at `stop` in none of the states before `t`. */
  ghost predicate LeadsIn(s: Cpu, t: Cpu, n: nat, stop: Word)
    requires Valid(s)
    decreases n
  {
    if n == 0 then s == t else s.pc != stop && LeadsIn(Step(s), t, n - 1, stop)
  }

  ghost predicate Leads(s: Cpu, t: Cpu, stop: Word)
    requires Valid(s)
  {
    exists n: nat :: LeadsIn(s, t, n, stop)
  }

  lemma {:induction false} LeadsInAdds(s: Cpu, t: Cpu, u: Cpu, m: nat, n: nat, stop: Word)
    requires Valid(s) && Valid(t) && LeadsIn(s, t, m, stop) && LeadsIn(t, u, n, stop)
    ensures LeadsIn(s, u, m + n, stop)
    decreases m
  {
    hide Step;
    if m > 0 {
      LeadsInAdds(Step(s), t, u, m - 1, n, stop);
    }
  }

  lemma {:induction false} LeadsInRuns(s: Cpu, t: Cpu, n: nat, stop: Word, k: nat)
    requires Valid(s) && LeadsIn(s, t, n, stop)
    ensures Run(s, n) == t
    ensures k < n ==> Run(s, k).pc != stop
    decreases n
  {
    hide Step;
    if n > 0 {
      LeadsInRuns(Step(s), t, n - 1, stop, if k == 0 then 0 else k - 1);
    }
  }

  lemma LeadsReaches(s: Cpu, t: Cpu, stop: Word)
    requires Valid(s) && Leads(s, t, stop)
    ensures Reaches(s, t)
  {
    var n: nat :| LeadsIn(s, t, n, stop);
    LeadsInRuns(s, t, n, stop, 0);
  }

  /** A run that ends blocked elsewhere never gets to `stop`. */
  lemma BlockedNeverStops(s: Cpu, t: Cpu, stop: Word, k: nat)
    requires Valid(s) && Leads(s, t, stop) && Valid(t) && Blocked(t) && t.pc != stop
    ensures Run(s, k).pc != stop
  {
    hide Step;
    var n: nat :| LeadsIn(s, t, n, stop);
    LeadsInRuns(s, t, n, stop, k);
    if k >= n {
      RunAdds(s, n, k - n);
      BlockedForever(t, k - n);
    }
  }

  /** The processor waits (for an instruction or a FASTDATA word) or has trapped. */
  ghost predicate Blocked(s: Cpu)
    requires Valid(s)
  {
    TryStep(s).None?
  }

  lemma {:induction false} BlockedForever(s: Cpu, n: nat)
    requires Valid(s) && Blocked(s)
    ensures Run(s, n) == s
    decreases n
  {
    if n > 0 {
      BlockedForever(s, n - 1);
    }
  }

  /** There is only one run: of two states on it, one comes first. */
  lemma ReachesLinear(s: Cpu, t: Cpu, u: Cpu)
    requires Valid(s) && Reaches(s, t) && Reaches(s, u)
    ensures Valid(t) && Valid(u) && (Reaches(t, u) || Reaches(u, t))
  {
    hide Step;
    var m: nat :| Run(s, m) == t;
    var n: nat :| Run(s, n) == u;
    if m <= n {
      RunAdds(s, m, n - m);
      assert Run(t, n - m) == u;
    } else {
      RunAdds(s, n, m - n);
      assert Run(u, m - n) == t;
    }
  }

  // ----- Delivery order -----------------------------------------------------

  /** The state after the probe has queued more instructions and more data. */
  function Feed(s: Cpu, instrs: seq<Word>, data: seq<Word>): Cpu
  {
    s.(probe := s.probe + instrs, fifo := s.fifo + data)
  }

  lemma LoadCommutesWithFeed(s: Cpu, r: Reg, a: Word, instrs: seq<Word>, data: seq<Word>)
    requires Valid(s) && Load(s, r, a).Some?
    ensures Valid(Feed(s, instrs, data))
    ensures Load(Feed(s, instrs, data), r, a) == Some(Feed(Load(s, r, a).value, instrs, data))
  {
    if s.fifo != [] {
      assert (s.fifo + data)[1..] == s.fifo[1..] + data;
    }
  }

  lemma ExecuteCommutesWithFeed(s: Cpu, i: Instr, instrs: seq<Word>, data: seq<Word>)
    requires Valid(s) && Execute(s, i).Some?
    ensures Valid(Feed(s, instrs, data))
    ensures Execute(Feed(s, instrs, data), i) == Some(Feed(Execute(s, i).value, instrs, data))
  {
    hide ShiftRight, OrImmediate, Wrap, Load, Phys;
    if i.Lw? {
      LoadCommutesWithFeed(s, i.rt, Wrap(s.reg[i.base] + i.offset), instrs, data);
    }
  }

  /** A step that can be taken is not changed by words that arrive behind the ones
      already queued. */
  lemma StepCommutesWithFeed(s: Cpu, instrs: seq<Word>, data: seq<Word>)
    requires Valid(s) && !Blocked(s)
    ensures Valid(Feed(s, instrs, data)) && !Blocked(Feed(s, instrs, data))
    ensures Step(Feed(s, instrs, data)) == Feed(Step(s), instrs, data)
  {
    hide Decode, Execute;
    var f := Feed(s, instrs, data);
    if s.probe != [] {
      assert (s.probe + instrs)[1..] == s.probe[1..] + instrs;
    }
    assert Fetch(f) == Fetch(s);
    assert Fetched(f) == Feed(Fetched(s), instrs, data);
    ExecuteCommutesWithFeed(Fetched(s), Decode(Fetch(s).value), instrs, data);
  }

  lemma {:induction false} RunCommutesWithFeed(s: Cpu, n: nat, instrs: seq<Word>, data: seq<Word>)
    requires Valid(s)
    ensures Valid(Feed(s, instrs, data))
    ensures Reaches(Feed(s, instrs, data), Feed(Run(s, n), instrs, data))
    decreases n
  {
    if n == 0 {
      ReachesSelf(Feed(s, instrs, data));
    } else if Blocked(s) {
      BlockedForever(s, n);
      ReachesSelf(Feed(s, instrs, data));
    } else {
      StepCommutesWithFeed(s, instrs, data);
      RunCommutesWithFeed(Step(s), n - 1, instrs, data);
      ReachesStep(Feed(s, instrs, data), Feed(Run(s, n), instrs, data));
    }
  }

  /** What can happen while the host talks to the target: a word arrives, or the
      processor runs one instruction. */
  datatype Event = Instruction(word: Word) | Data(word: Word) | Cycle

  ghost function Play(s: Cpu, events: seq<Event>): (t: Cpu)
    requires Valid(s)
    ensures Valid(t)
    decreases |events|
  {
    if events == [] then s
    else
      var rest := events[1..];
      match events[0]
      case Instruction(w) => Play(Feed(s, [w], []), rest)
      case Data(w) => Play(Feed(s, [], [w]), rest)
      case Cycle => Play(Step(s), rest)
  }

  function Instructions(events: seq<Event>): seq<Word>
  {
    if events == [] then []
    else (if events[0].Instruction? then [events[0].word] else []) + Instructions(events[1..])
  }

  function DataWords(events: seq<Event>): seq<Word>
  {
    if events == [] then []
    else (if events[0].Data? then [events[0].word] else []) + DataWords(events[1..])
  }

  /** Whatever the timing of the transfers, the processor ends on the run it would
      make with all the words queued beforehand. */
  lemma {:induction false} TimingIrrelevant(s: Cpu, events: seq<Event>)
    requires Valid(s)
    ensures Reaches(Feed(s, Instructions(events), DataWords(events)), Play(s, events))
    decreases |events|
  {
    var ins, ds := Instructions(events), DataWords(events);
    if events == [] {
      assert Feed(s, ins, ds) == s by { assert s.probe + [] == s.probe && s.fifo + [] == s.fifo; }
      ReachesSelf(s);
    } else {
      var rest := events[1..];
      var ri, rd := Instructions(rest), DataWords(rest);
      match events[0]
      case Instruction(w) =>
        TimingIrrelevant(Feed(s, [w], []), rest);
        assert (s.probe + [w]) + ri == s.probe + ([w] + ri);
        assert (s.fifo + []) + rd == s.fifo + ([] + rd);
        assert Feed(Feed(s, [w], []), ri, rd) == Feed(s, ins, ds);
      case Data(w) =>
        TimingIrrelevant(Feed(s, [], [w]), rest);
        assert (s.probe + []) + ri == s.probe + ([] + ri);
        assert (s.fifo + [w]) + rd == s.fifo + ([w] + rd);
        assert Feed(Feed(s, [], [w]), ri, rd) == Feed(s, ins, ds);
      case Cycle =>
        TimingIrrelevant(Step(s), rest);
        assert ins == ri && ds == rd;
        if !Blocked(s) {
          StepCommutesWithFeed(s, ri, rd);
          ReachesStep(Feed(s, ri, rd), Play(s, events));
        }
    }
  }
}
