/** The 21-instruction loader that the host plants in target RAM, run on the
    processor model: it copies blocks of FASTDATA words to memory and then jumps
    to the programming executive. */
module Loader {
  import opened Words
  import opened Mips

  /** The loader as stored in the host program: two halfwords per instruction. */
  const PE_LOADER: seq<Half> :=
    [ 0x3C07, 0xDEAD,
      0x3C06, 0xFF20,
      0x3C05, 0xFF20,
      0x8CC4, 0x0000,
      0x8CC3, 0x0000,
      0x1067, 0x000B,
      0x0000, 0x0000,
      0x1060, 0xFFFB,
      0x0000, 0x0000,
      0x8CA2, 0x0000,
      0x2463, 0xFFFF,
      0xAC82, 0x0000,
      0x2484, 0x0004,
      0x1460, 0xFFFB,
      0x0000, 0x0000,
      0x1000, 0xFFF3,
      0x0000, 0x0000,
      0x3C02, 0xA000,
      0x3442, 0x0900,
      0x0040, 0x0008,
      0x0000, 0x0000 ]

  const LOADER_BASE: Word := 0xA000_0800
  const PE_BASE: Word := 0xA000_0900
  const END_MARK: Word := 0xDEAD_0000

  type Index = k: nat | k < 21

  function HighHalf(k: Index): Half
  {
    PE_LOADER[2 * k]
  }

  function LowHalf(k: Index): Half
  {
    PE_LOADER[2 * k + 1]
  }

  function LoaderWord(k: Index): Word
  {
    var high: int, low: int := HighHalf(k), LowHalf(k);
    high * 0x1_0000 + low
  }

  // Register numbers of the o32 calling convention.
  const V0: Reg := 2
  const V1: Reg := 3
  const A0: Reg := 4
  const A1: Reg := 5
  const A2: Reg := 6
  const A3: Reg := 7

  /** The same program, disassembled. */
  function Assembly(k: Index): Instr
  {
    match k
    case 0 => Lui(A3, 0xDEAD)
    case 1 => Lui(A2, 0xFF20)
    case 2 => Lui(A1, 0xFF20)
    case 3 => Lw(A0, A2, 0)        // header: address
    case 4 => Lw(V1, A2, 0)        //         number of words
    case 5 => Beq(V1, A3, 11)      // end mark: go to 17
    case 6 => Nop
    case 7 => Beq(V1, 0, -5)       // empty block: next header
    case 8 => Nop
    case 9 => Lw(V0, A1, 0)        // copy loop
    case 10 => Addiu(V1, V1, -1)
    case 11 => Sw(V0, A0, 0)
    case 12 => Addiu(A0, A0, 4)
    case 13 => Bne(V1, 0, -5)
    case 14 => Nop
    case 15 => Beq(0, 0, -13)      // next header
    case 16 => Nop
    case 17 => Lui(V0, 0xA000)
    case 18 => Ori(V0, V0, 0x0900)
    case 19 => Jr(V0)
    case 20 => Nop
  }

  /** Opcode, rs, rt and immediate of each instruction. */
  function LoaderFields(k: Index): (f: (nat, Reg, Reg, nat))
    ensures f.0 < 64 && f.3 < 0x1_0000
  {
    match k
    case 0 => (0x0F, 0, 7, 0xDEAD)
    case 1 => (0x0F, 0, 6, 0xFF20)
    case 2 => (0x0F, 0, 5, 0xFF20)
    case 3 => (0x23, 6, 4, 0x0000)
    case 4 => (0x23, 6, 3, 0x0000)
    case 5 => (0x04, 3, 7, 0x000B)
    case 6 => (0x00, 0, 0, 0x0000)
    case 7 => (0x04, 3, 0, 0xFFFB)
    case 8 => (0x00, 0, 0, 0x0000)
    case 9 => (0x23, 5, 2, 0x0000)
    case 10 => (0x09, 3, 3, 0xFFFF)
    case 11 => (0x2B, 4, 2, 0x0000)
    case 12 => (0x09, 4, 4, 0x0004)
    case 13 => (0x05, 3, 0, 0xFFFB)
    case 14 => (0x00, 0, 0, 0x0000)
    case 15 => (0x04, 0, 0, 0xFFF3)
    case 16 => (0x00, 0, 0, 0x0000)
    case 17 => (0x0F, 0, 2, 0xA000)
    case 18 => (0x0D, 2, 2, 0x0900)
    case 19 => (0x00, 2, 0, 0x0008)
    case 20 => (0x00, 0, 0, 0x0000)
  }

  function LoaderFieldsWord(k: Index): Word
  {
    var (op, rs, rt, imm) := LoaderFields(k);
    Fields(op, rs, rt, imm)
  }

  lemma LoaderHalvesFromFields(k: Index)
    ensures var (op, rs, rt, imm) := LoaderFields(k);
            PE_LOADER[2 * k] == (op * 32 + rs) * 32 + rt && PE_LOADER[2 * k + 1] == imm
  {
    if k < 11 {
      FirstHalvesFromFields(k);
    } else {
      LastHalvesFromFields(k);
    }
  }

  lemma FirstHalvesFromFields(k: Index)
    requires k < 11
    ensures var (op, rs, rt, imm) := LoaderFields(k);
            PE_LOADER[2 * k] == (op * 32 + rs) * 32 + rt && PE_LOADER[2 * k + 1] == imm
  {
  }

  lemma LastHalvesFromFields(k: Index)
    requires k >= 11
    ensures var (op, rs, rt, imm) := LoaderFields(k);
            PE_LOADER[2 * k] == (op * 32 + rs) * 32 + rt && PE_LOADER[2 * k + 1] == imm
  {
  }

  lemma LoaderWordFromFields(k: Index)
    ensures LoaderWord(k) == LoaderFieldsWord(k)
  {
    hide PE_LOADER, LoaderFields;
    LoaderHalvesFromFields(k);
  }

  lemma FieldsDisassemble(k: Index)
    ensures Decode(LoaderFieldsWord(k)) == Assembly(k)
  {
    hide Decode, Fields;
    var (op, rs, rt, imm) := LoaderFields(k);
    DecodesFields(op, rs, rt, imm);
  }

  lemma Disassembles(k: Index)
    ensures Decode(LoaderWord(k)) == Assembly(k)
  {
    hide LoaderWord, LoaderFieldsWord, Decode, Assembly;
    LoaderWordFromFields(k);
    FieldsDisassemble(k);
  }

  /** The loader is in RAM, at physical address 0x800. */
  ghost predicate LoaderIn(mem: map<Word, Word>)
  {
    forall k: Index :: 0x800 + 4 * k in mem && mem[0x800 + 4 * k] == LoaderWord(k)
  }

  predicate At(s: Cpu, k: Index)
  {
    s.pc == LOADER_BASE + 4 * k && s.npc == LOADER_BASE + 4 * k + 4
  }

  lemma StepInLoader(s: Cpu, k: Index)
    requires Valid(s) && LoaderIn(s.mem) && s.pc == LOADER_BASE + 4 * k
    ensures TryStep(s) == Execute(s, Assembly(k))
  {
    hide Decode, Execute, LoaderWord;
    Disassembles(k);
    assert Phys(s.pc) == 0x800 + 4 * k;
    assert Fetch(s) == Some(LoaderWord(k));
  }

  // ----- Blocks ---------------------------------------------------------------

  datatype Block = Block(address: Word, words: seq<Word>)

  /** Words stored one after the other, from address `a` upwards. */
  function WriteWords(mem: map<Word, Word>, a: Word, words: seq<Word>): map<Word, Word>
    decreases |words|
  {
    if words == [] then mem
    else WriteWords(mem[Phys(a) := words[0]], Wrap(a + 4), words[1..])
  }

  function WriteBlocks(mem: map<Word, Word>, blocks: seq<Block>): map<Word, Word>
    decreases |blocks|
  {
    if blocks == [] then mem
    else WriteBlocks(WriteWords(mem, blocks[0].address, blocks[0].words), blocks[1..])
  }

  /** A word address in RAM, outside the 84 bytes of the loader. */
  predicate Storable(a: Word)
  {
    a % 4 == 0 && !InDmseg(a) && !(0x800 <= Phys(a) < 0x854)
  }

  predicate StorableFrom(a: Word, n: nat)
    decreases n
  {
    n > 0 ==> Storable(a) && StorableFrom(Wrap(a + 4), n - 1)
  }

  /** A block that the loader can tell from the end mark, and whose target is free. */
  predicate Loadable(b: Block)
  {
    |b.words| < 0x1_0000_0000 && |b.words| != END_MARK && StorableFrom(b.address, |b.words|)
  }

  /** The FASTDATA stream of a block: address, count, contents. */
  function BlockStream(b: Block): seq<Word>
    requires Loadable(b)
  {
    [b.address, |b.words|] + b.words
  }

  function BlocksStream(blocks: seq<Block>): seq<Word>
    requires forall b <- blocks :: Loadable(b)
    decreases |blocks|
  {
    if blocks == [] then [] else BlockStream(blocks[0]) + BlocksStream(blocks[1..])
  }

  // ----- Runs of the loader -----------------------------------------------------

  /** Between blocks: about to read the next header. */
  ghost predicate Ready(s: Cpu)
  {
    && Valid(s) && LoaderIn(s.mem) && At(s, 3)
    && s.reg[A1] == FASTDATA && s.reg[A2] == FASTDATA && s.reg[A3] == END_MARK
  }

  /** At the top of the copy loop with the given words still to copy. */
  ghost predicate Copying(s: Cpu, a: Word, count: nat)
  {
    && Valid(s) && LoaderIn(s.mem) && At(s, 9)
    && s.reg[A0] == a && s.reg[V1] == count && count > 0
    && s.reg[A1] == FASTDATA && s.reg[A2] == FASTDATA && s.reg[A3] == END_MARK
  }

  /** A run on which the executive's entry point is not reached before `t`. */
  ghost predicate Enters(s: Cpu, t: Cpu)
    requires Valid(s)
  {
    Leads(s, t, PE_BASE)
  }

  lemma EntersSelf(s: Cpu)
    requires Valid(s)
    ensures Enters(s, s)
  {
    assert LeadsIn(s, s, 0, PE_BASE);
  }

  lemma EntersStep(s: Cpu, t: Cpu)
    requires Valid(s) && s.pc != PE_BASE && Enters(Step(s), t)
    ensures Enters(s, t)
  {
    hide Step;
    var n: nat :| LeadsIn(Step(s), t, n, PE_BASE);
    assert LeadsIn(s, t, n + 1, PE_BASE);
  }

  lemma EntersTransitive(s: Cpu, t: Cpu, u: Cpu)
    requires Valid(s) && Enters(s, t) && Valid(t) && Enters(t, u)
    ensures Enters(s, u)
  {
    hide LeadsIn;
    var m: nat :| LeadsIn(s, t, m, PE_BASE);
    var n: nat :| LeadsIn(t, u, n, PE_BASE);
    LeadsInAdds(s, t, u, m, n, PE_BASE);
  }

  /** A sequence of single steps is a run. */
  lemma {:induction false} Walk(path: seq<Cpu>)
    requires |path| > 0
    requires forall i :: 0 <= i < |path| ==> Valid(path[i])
    requires forall i :: 0 <= i < |path| - 1 ==> TryStep(path[i]) == Some(path[i + 1])
    requires forall i :: 0 <= i < |path| - 1 ==> path[i].pc != PE_BASE
    ensures Enters(path[0], path[|path| - 1])
    decreases |path|
  {
    hide TryStep;
    if |path| == 1 {
      EntersSelf(path[0]);
    } else {
      var rest := path[1..];
      Walk(rest);
      assert Step(path[0]) == path[1];
      EntersStep(path[0], path[|path| - 1]);
    }
  }

  /** Entry: three loads of constants. */
  lemma SetsUp(s: Cpu) returns (t: Cpu)
    requires Valid(s) && LoaderIn(s.mem) && At(s, 0)
    ensures Ready(t) && Enters(s, t)
    ensures t.mem == s.mem && t.fifo == s.fifo && t.out == s.out && t.probe == s.probe
  {
    hide TryStep, LoaderIn, Enters;
    StepInLoader(s, 0);
    var s1 := Execute(s, Assembly(0)).value;
    StepInLoader(s1, 1);
    var s2 := Execute(s1, Assembly(1)).value;
    StepInLoader(s2, 2);
    t := Execute(s2, Assembly(2)).value;
    Walk([s, s1, s2, t]);
  }

  /** A header has been read: address in a0, count in v1. */
  ghost predicate HeaderRead(s: Cpu, a: Word, count: Word)
  {
    && Valid(s) && LoaderIn(s.mem) && At(s, 5)
    && s.reg[A0] == a && s.reg[V1] == count
    && s.reg[A1] == FASTDATA && s.reg[A2] == FASTDATA && s.reg[A3] == END_MARK
  }

  lemma ReadsHeader(s: Cpu) returns (t: Cpu)
    requires Ready(s) && |s.fifo| >= 2
    ensures HeaderRead(t, s.fifo[0], s.fifo[1]) && Enters(s, t)
    ensures t.mem == s.mem && t.fifo == s.fifo[2..] && t.out == s.out && t.probe == s.probe
  {
    hide TryStep, LoaderIn, Phys, Enters;
    StepInLoader(s, 3);
    var s1 := Execute(s, Assembly(3)).value;
    StepInLoader(s1, 4);
    t := Execute(s1, Assembly(4)).value;
    Walk([s, s1, t]);
  }

  /** A header with count 0 is skipped. */
  lemma SkipsEmptyBlock(s: Cpu, a: Word) returns (t: Cpu)
    requires HeaderRead(s, a, 0)
    ensures Ready(t) && Enters(s, t)
    ensures t.mem == s.mem && t.fifo == s.fifo && t.out == s.out && t.probe == s.probe
  {
    hide TryStep, LoaderIn, Phys, Enters;
    StepInLoader(s, 5);
    var s1 := Execute(s, Assembly(5)).value;
    StepInLoader(s1, 6);
    var s2 := Execute(s1, Assembly(6)).value;
    StepInLoader(s2, 7);
    var s3 := Execute(s2, Assembly(7)).value;
    StepInLoader(s3, 8);
    t := Execute(s3, Assembly(8)).value;
    Walk([s, s1, s2, s3, t]);
  }

  /** Any other count but the end mark enters the copy loop. */
  lemma StartsBlock(s: Cpu, a: Word, count: Word) returns (t: Cpu)
    requires HeaderRead(s, a, count) && count != 0 && count != END_MARK
    ensures Copying(t, a, count) && Enters(s, t)
    ensures t.mem == s.mem && t.fifo == s.fifo && t.out == s.out && t.probe == s.probe
  {
    hide TryStep, LoaderIn, Phys, Enters;
    StepInLoader(s, 5);
    var s1 := Execute(s, Assembly(5)).value;
    StepInLoader(s1, 6);
    var s2 := Execute(s1, Assembly(6)).value;
    StepInLoader(s2, 7);
    var s3 := Execute(s2, Assembly(7)).value;
    StepInLoader(s3, 8);
    t := Execute(s3, Assembly(8)).value;
    Walk([s, s1, s2, s3, t]);
  }

  lemma StoreKeepsLoader(mem: map<Word, Word>, a: Word, w: Word)
    requires LoaderIn(mem) && Storable(a)
    ensures LoaderIn(mem[Phys(a) := w])
  {
  }

  /** In the copy loop, after the decrement: the word is in v0, not yet stored. */
  ghost predicate Holding(s: Cpu, a: Word, left: nat, w: Word)
  {
    && Valid(s) && LoaderIn(s.mem) && At(s, 11)
    && s.reg[A0] == a && s.reg[V1] == left && s.reg[V0] == w
    && s.reg[A1] == FASTDATA && s.reg[A2] == FASTDATA && s.reg[A3] == END_MARK
  }

  /** In the copy loop, at the closing branch. */
  ghost predicate Copied(s: Cpu, a: Word, left: nat)
  {
    && Valid(s) && LoaderIn(s.mem) && At(s, 13)
    && s.reg[A0] == a && s.reg[V1] == left
    && s.reg[A1] == FASTDATA && s.reg[A2] == FASTDATA && s.reg[A3] == END_MARK
  }

  lemma FetchesWord(s: Cpu, a: Word, count: nat) returns (t: Cpu)
    requires Copying(s, a, count) && s.fifo != []
    ensures Holding(t, a, count - 1, s.fifo[0]) && Enters(s, t)
    ensures t.mem == s.mem && t.fifo == s.fifo[1..] && t.out == s.out && t.probe == s.probe
  {
    hide TryStep, LoaderIn, Phys, Enters;
    StepInLoader(s, 9);
    var s1 := Execute(s, Assembly(9)).value;
    StepInLoader(s1, 10);
    t := Execute(s1, Assembly(10)).value;
    Walk([s, s1, t]);
  }

  lemma StoresWord(s: Cpu, a: Word, left: nat, w: Word) returns (t: Cpu)
    requires Holding(s, a, left, w) && Storable(a)
    ensures Copied(t, Wrap(a + 4), left) && Enters(s, t)
    ensures t.mem == s.mem[Phys(a) := w]
    ensures t.fifo == s.fifo && t.out == s.out && t.probe == s.probe
  {
    hide TryStep, LoaderIn, Phys, Enters;
    StoreKeepsLoader(s.mem, a, w);
    StepInLoader(s, 11);
    var s1 := Execute(s, Assembly(11)).value;
    StepInLoader(s1, 12);
    t := Execute(s1, Assembly(12)).value;
    Walk([s, s1, t]);
  }

  lemma CopiesWord(s: Cpu, a: Word, count: nat) returns (t: Cpu)
    requires Copying(s, a, count) && s.fifo != [] && Storable(a)
    ensures Copied(t, Wrap(a + 4), count - 1) && Enters(s, t)
    ensures t.mem == s.mem[Phys(a) := s.fifo[0]]
    ensures t.fifo == s.fifo[1..] && t.out == s.out && t.probe == s.probe
  {
    hide LoaderIn, Phys, Enters;
    var m := FetchesWord(s, a, count);
    t := StoresWord(m, a, count - 1, s.fifo[0]);
    EntersTransitive(s, m, t);
  }

  lemma LoopsBack(s: Cpu, a: Word, left: nat) returns (t: Cpu)
    requires Copied(s, a, left) && left > 0
    ensures Copying(t, a, left) && Enters(s, t)
    ensures t.mem == s.mem && t.fifo == s.fifo && t.out == s.out && t.probe == s.probe
  {
    hide TryStep, LoaderIn, Phys, Enters;
    StepInLoader(s, 13);
    var s1 := Execute(s, Assembly(13)).value;
    StepInLoader(s1, 14);
    t := Execute(s1, Assembly(14)).value;
    Walk([s, s1, t]);
  }

  lemma EndsBlock(s: Cpu, a: Word) returns (t: Cpu)
    requires Copied(s, a, 0)
    ensures Ready(t) && Enters(s, t)
    ensures t.mem == s.mem && t.fifo == s.fifo && t.out == s.out && t.probe == s.probe
  {
    hide TryStep, LoaderIn, Phys, Enters;
    StepInLoader(s, 13);
    var s1 := Execute(s, Assembly(13)).value;
    StepInLoader(s1, 14);
    var s2 := Execute(s1, Assembly(14)).value;
    StepInLoader(s2, 15);
    var s3 := Execute(s2, Assembly(15)).value;
    StepInLoader(s3, 16);
    t := Execute(s3, Assembly(16)).value;
    Walk([s, s1, s2, s3, t]);
  }

  /** The copy loop stores every word of the block. */
  lemma {:induction false} CopiesBlock(s: Cpu, a: Word, words: seq<Word>) returns (t: Cpu)
    requires words != [] && Copying(s, a, |words|) && words <= s.fifo
    requires StorableFrom(a, |words|)
    ensures Ready(t) && Enters(s, t)
    ensures t.mem == WriteWords(s.mem, a, words)
    ensures t.fifo == s.fifo[|words|..] && t.out == s.out && t.probe == s.probe
    decreases |words|
  {
    hide LoaderIn, Enters, Phys;
    var c := CopiesWord(s, a, |words|);
    if |words| == 1 {
      t := EndsBlock(c, Wrap(a + 4));
      EntersTransitive(s, c, t);
    } else {
      var m := LoopsBack(c, Wrap(a + 4), |words| - 1);
      EntersTransitive(s, c, m);
      t := CopiesBlock(m, Wrap(a + 4), words[1..]);
      EntersTransitive(s, m, t);
    }
  }

  /** The end mark ends the loop over blocks. */
  lemma FindsEndMark(s: Cpu, a: Word) returns (t: Cpu)
    requires HeaderRead(s, a, END_MARK)
    ensures Valid(t) && LoaderIn(t.mem) && At(t, 17) && Enters(s, t)
    ensures t.mem == s.mem && t.fifo == s.fifo && t.out == s.out && t.probe == s.probe
  {
    hide TryStep, LoaderIn, Phys, Enters;
    StepInLoader(s, 5);
    var s1 := Execute(s, Assembly(5)).value;
    StepInLoader(s1, 6);
    t := Execute(s1, Assembly(6)).value;
    Walk([s, s1, t]);
  }

  /** The exit jumps to the executive's entry point. */
  lemma Jumps(s: Cpu) returns (t: Cpu)
    requires Valid(s) && LoaderIn(s.mem) && At(s, 17)
    ensures Valid(t) && Enters(s, t) && t.pc == PE_BASE && t.npc == PE_BASE + 4
    ensures t.mem == s.mem && t.fifo == s.fifo && t.out == s.out && t.probe == s.probe
  {
    hide TryStep, LoaderIn, Phys, OrImmediate, Enters;
    assert OrImmediate(0xA000_0000, 0x0900) == PE_BASE by { OrHalf(0xA000, 0x0900); }
    StepInLoader(s, 17);
    var s1 := Execute(s, Assembly(17)).value;
    StepInLoader(s1, 18);
    var s2 := Execute(s1, Assembly(18)).value;
    StepInLoader(s2, 19);
    var s3 := Execute(s2, Assembly(19)).value;
    StepInLoader(s3, 20);
    t := Execute(s3, Assembly(20)).value;
    Walk([s, s1, s2, s3, t]);
  }

  lemma {:induction false} LoadsBlocks(s: Cpu, blocks: seq<Block>) returns (t: Cpu)
    requires Ready(s)
    requires forall b <- blocks :: Loadable(b)
    requires BlocksStream(blocks) <= s.fifo
    ensures Ready(t) && Enters(s, t)
    ensures t.mem == WriteBlocks(s.mem, blocks)
    ensures t.fifo == s.fifo[|BlocksStream(blocks)|..] && t.out == s.out && t.probe == s.probe
    decreases |blocks|
  {
    hide LoaderIn, Enters;
    if blocks == [] {
      t := s;
      EntersSelf(s);
    } else {
      var b, rest := blocks[0], blocks[1..];
      var stream := BlockStream(b);
      assert stream <= s.fifo;
      var h := ReadsHeader(s);
      var m;
      if b.words == [] {
        m := SkipsEmptyBlock(h, b.address);
      } else {
        var c := StartsBlock(h, b.address, |b.words|);
        assert b.words <= c.fifo;
        m := CopiesBlock(c, b.address, b.words);
        EntersTransitive(h, c, m);
      }
      EntersTransitive(s, h, m);
      assert m.fifo == s.fifo[|stream|..];
      assert BlocksStream(rest) <= m.fifo;
      t := LoadsBlocks(m, rest);
      EntersTransitive(s, m, t);
    }
  }

  /** The whole loader: for every list of blocks, and whatever follows the end mark,
      it stops reading right after the end mark, has stored exactly the blocks, and
      control is at the executive's entry point. */
  lemma LoaderRuns(s: Cpu, blocks: seq<Block>, dummy: Word, after: seq<Word>) returns (t: Cpu)
    requires Valid(s) && LoaderIn(s.mem) && At(s, 0)
    requires forall b <- blocks :: Loadable(b)
    requires s.fifo == BlocksStream(blocks) + [dummy, END_MARK] + after
    ensures Valid(t) && Enters(s, t)
    ensures t.pc == PE_BASE && t.npc == PE_BASE + 4
    ensures t.mem == WriteBlocks(s.mem, blocks)
    ensures t.fifo == after && t.out == s.out && t.probe == s.probe
  {
    var r := SetsUp(s);
    var e := LoadsBlocks(r, blocks);
    assert e.fifo == [dummy, END_MARK] + after;
    var h := ReadsHeader(e);
    var x := FindsEndMark(h, dummy);
    t := Jumps(x);
    EntersTransitive(s, r, e);
    EntersTransitive(s, e, h);
    EntersTransitive(s, h, x);
    EntersTransitive(s, x, t);
  }
}
