/** The instructions with which the host plants the loader in target RAM and starts it,
    and what the processor makes of them. */
module Installer {
  import opened Words
  import opened Mips
  import opened Loader

  /** Steps 1 to 3: configure the RAM partitions (not on the MZ family). */
  const BMX_SETUP: seq<Word> :=
    [ 0x3c04bf88, 0x34842000, 0x3c05001f, 0x34a50040, 0xac850000,
      0x34050800, 0xac850010,
      0x8c850040, 0xac850020, 0xac850030 ]

  /** Step 4: a0 points to the loader's place. */
  const AIM: seq<Word> := [0x3c04a000, 0x34840800]

  /** Step 5: build one loader word in a2 and store it. */
  function Plant(k: Index): seq<Word>
  {
    [ Wrap(Or(0x3c060000, HighHalf(k))), Wrap(Or(0x34c60000, LowHalf(k))),
      0xac860000, 0x24840004 ]
  }

  function PlantFrom(k: nat): seq<Word>
    requires k <= 21
    decreases 21 - k
  {
    if k == 21 then [] else Plant(k) + PlantFrom(k + 1)
  }

  /** Step 6: jump to the loader. */
  const JUMP: seq<Word> := [0x3c19a000, 0x37390800, 0x03200008, 0x00000000]

  function Install(mz: bool): seq<Word>
  {
    (if mz then [] else BMX_SETUP) + AIM + PlantFrom(0) + JUMP
  }

  /** In debug mode, fetching from the probe, with room for `n` more instructions. */
  ghost predicate Served(s: Cpu, n: nat)
  {
    && Mips.Valid(s) && 0xFF20_0200 <= s.pc && s.npc == s.pc + 4
    && s.pc + 4 * n < 0xFF30_0000
  }

  /** The probe's next instruction executes. */
  lemma StepServed(s: Cpu, n: nat)
    requires Served(s, n + 1) && s.probe != []
    ensures TryStep(s) == Execute(s.(probe := s.probe[1..]), Decode(s.probe[0]))
  {
    hide Execute, Decode;
  }

  /** Execute the probe's next instruction, given its fields. */
  lemma Serve(s: Cpu, n: nat, op: nat, rs: Reg, rt: Reg, imm: nat)
    requires Served(s, n + 1) && s.probe != [] && op < 64 && imm < 0x1_0000
    requires s.probe[0] == Fields(op, rs, rt, imm)
    ensures TryStep(s) == Execute(s.(probe := s.probe[1..]), DecodeFields(s.probe[0], op, rs, rt, imm))
    ensures op > 0 ==> s.probe[0] != 0
  {
    hide Execute, Decode, DecodeFields, Fields;
    StepServed(s, n);
    DecodesFields(op, rs, rt, imm);
  }

  lemma PlantFields(k: Index)
    ensures Plant(k) == [ Fields(0x0F, 0, 6, HighHalf(k)), Fields(0x0D, 6, 6, LowHalf(k)),
                          Fields(0x2B, 4, 6, 0), Fields(0x09, 4, 4, 4) ]
  {
    hide HighHalf, LowHalf;
    OrHalf(0x3c06, HighHalf(k));
    OrHalf(0x34c6, LowHalf(k));
  }

  /** lui and ori build any word. */
  lemma BuildsWord(s: Cpu, room: nat, rt: Reg, high: Half, low: Half) returns (t: Cpu)
    requires Served(s, room + 2) && rt != 0
    requires [Fields(0x0F, 0, rt, high), Fields(0x0D, rt, rt, low)] <= s.probe
    ensures Served(t, room) && Enters(s, t)
    ensures t.reg == s.reg[rt := high as int * 0x1_0000 + low]
    ensures t.mem == s.mem && t.probe == s.probe[2..] && t.fifo == s.fifo && t.out == s.out
  {
    hide TryStep, OrImmediate, Fields;
    OrHalf(high, low);
    assert s.probe[0] == Fields(0x0F, 0, rt, high) && s.probe[1] == Fields(0x0D, rt, rt, low);
    Serve(s, room + 1, 0x0F, 0, rt, high);
    var s1 := TryStep(s).value;
    Serve(s1, room + 0, 0x0D, rt, rt, low);
    t := TryStep(s1).value;
    Walk([s, s1, t]);
  }

  lemma StoresWord(s: Cpu, room: nat, rt: Reg, base: Reg, offset: nat) returns (t: Cpu)
    requires Served(s, room + 1) && offset < 0x8000 && s.reg[base] + offset < 0xC000_0000
    requires (s.reg[base] + offset) % 4 == 0
    requires [Fields(0x2B, base, rt, offset)] <= s.probe
    ensures Served(t, room) && Enters(s, t) && t.reg == s.reg
    ensures t.mem == s.mem[Phys(s.reg[base] + offset) := s.reg[rt]]
    ensures t.probe == s.probe[1..] && t.fifo == s.fifo && t.out == s.out
  {
    hide TryStep, Fields, Phys;
    assert s.probe[0] == Fields(0x2B, base, rt, offset);
    Serve(s, room + 0, 0x2B, base, rt, offset);
    t := TryStep(s).value;
    Walk([s, t]);
  }

  lemma AddsFour(s: Cpu, room: nat) returns (t: Cpu)
    requires Served(s, room + 1) && s.reg[A0] < 0xC000_0000
    requires [Fields(0x09, A0, A0, 4)] <= s.probe
    ensures Served(t, room) && Enters(s, t) && t.reg == s.reg[A0 := s.reg[A0] + 4]
    ensures t.mem == s.mem && t.probe == s.probe[1..] && t.fifo == s.fifo && t.out == s.out
  {
    hide TryStep, Fields;
    assert s.probe[0] == Fields(0x09, A0, A0, 4);
    Serve(s, room + 0, 0x09, A0, A0, 4);
    t := TryStep(s).value;
    Walk([s, t]);
  }

  /** The four instructions put loader word `k` in its place. */
  lemma PlantsWord(s: Cpu, k: Index, room: nat) returns (t: Cpu)
    requires Served(s, room + 4) && s.reg[A0] == LOADER_BASE + 4 * k
    requires Plant(k) <= s.probe
    ensures Served(t, room) && Enters(s, t) && t.reg[A0] == LOADER_BASE + 4 * (k + 1)
    ensures t.mem == s.mem[0x800 + 4 * k := LoaderWord(k)]
    ensures t.probe == s.probe[4..] && t.fifo == s.fifo && t.out == s.out
  {
    hide TryStep, HighHalf, LowHalf, Plant, Fields;
    PlantFields(k);
    assert s.probe[0] == Plant(k)[0] && s.probe[1] == Plant(k)[1] && s.probe[2] == Plant(k)[2] &&
           s.probe[3] == Plant(k)[3];
    var b := BuildsWord(s, room + 2, A2, HighHalf(k), LowHalf(k));
    var c := StoresWord(b, room + 1, A2, A0, 0);
    t := AddsFour(c, room);
    EntersTransitive(s, b, c);
    EntersTransitive(s, c, t);
  }

  // ----- The whole installation -------------------------------------------------

  function PlantedFrom(mem: map<Word, Word>, k: nat): map<Word, Word>
    requires k <= 21
    decreases 21 - k
  {
    if k == 21 then mem else PlantedFrom(mem[0x800 + 4 * k := LoaderWord(k)], k + 1)
  }

  lemma {:induction false} PlantedExactly(mem: map<Word, Word>, k: nat)
    requires k <= 21
    ensures forall j: Index :: k <= j ==>
              0x800 + 4 * j in PlantedFrom(mem, k) && PlantedFrom(mem, k)[0x800 + 4 * j] == LoaderWord(j)
    ensures forall p: Word :: !(0x800 + 4 * k <= p < 0x854) ==>
              (p in PlantedFrom(mem, k) <==> p in mem) && (p in mem ==> PlantedFrom(mem, k)[p] == mem[p])
    decreases 21 - k
  {
    hide LoaderWord;
    if k < 21 {
      PlantedExactly(mem[0x800 + 4 * k := LoaderWord(k)], k + 1);
    }
  }

  lemma PlantsFromSplit(probe: seq<Word>, k: nat)
    requires k < 21 && PlantFrom(k) <= probe
    ensures |Plant(k)| == 4 && Plant(k) <= probe && PlantFrom(k + 1) <= probe[4..]
    ensures probe[4..][|PlantFrom(k + 1)|..] == probe[|PlantFrom(k)|..]
  {
    PlantFields(k);
  }

  lemma {:induction false} PlantsFrom(s: Cpu, k: nat, room: nat) returns (t: Cpu)
    requires k <= 21 && Served(s, room + 4 * (21 - k)) && s.reg[A0] == LOADER_BASE + 4 * k
    requires PlantFrom(k) <= s.probe
    ensures Served(t, room) && Enters(s, t)
    ensures t.mem == PlantedFrom(s.mem, k)
    ensures t.probe == s.probe[|PlantFrom(k)|..] && t.fifo == s.fifo && t.out == s.out
    decreases 21 - k
  {
    hide Plant, LoaderWord, Step;
    if k == 21 {
      t := s;
      EntersSelf(s);
    } else {
      PlantFields(k);
      PlantsFromSplit(s.probe, k);
      var m := PlantsWord(s, k, room + 4 * (20 - k));
      t := PlantsFrom(m, k + 1, room);
      EntersTransitive(s, m, t);
    }
  }

  /** RAM partition registers: BMXCON, BMXDKPBA, BMXDUDBA, BMXDUPBA, BMXDMSZ. */
  const BMXCON: Word := 0x1f88_2000
  const BMXDKPBA: Word := 0x1f88_2010
  const BMXDUDBA: Word := 0x1f88_2020
  const BMXDUPBA: Word := 0x1f88_2030
  const BMXDMSZ: Word := 0x1f88_2040

  /** The first kilobytes are kernel program memory, the rest kernel data. */
  function Partitioned(mem: map<Word, Word>): map<Word, Word>
    requires BMXDMSZ in mem
  {
    mem[BMXCON := 0x001f_0040][BMXDKPBA := 0x800][BMXDUDBA := mem[BMXDMSZ]][BMXDUPBA := mem[BMXDMSZ]]
  }

  lemma SetsImmediate(s: Cpu, room: nat, rt: Reg, imm: Half) returns (t: Cpu)
    requires Served(s, room + 1) && rt != 0 && imm != 0
    requires [Fields(0x0D, 0, rt, imm)] <= s.probe
    ensures Served(t, room) && Enters(s, t) && t.reg == s.reg[rt := imm]
    ensures t.mem == s.mem && t.probe == s.probe[1..] && t.fifo == s.fifo && t.out == s.out
  {
    hide TryStep, Fields, OrImmediate;
    OrHalf(0, imm);
    assert s.probe[0] == Fields(0x0D, 0, rt, imm);
    Serve(s, room, 0x0D, 0, rt, imm);
    t := TryStep(s).value;
    Walk([s, t]);
  }

  lemma LoadsWord(s: Cpu, room: nat, rt: Reg, base: Reg, offset: nat) returns (t: Cpu)
    requires Served(s, room + 1) && rt != 0 && offset < 0x8000 && s.reg[base] + offset < 0xC000_0000
    requires (s.reg[base] + offset) % 4 == 0 && Phys(s.reg[base] + offset) in s.mem
    requires [Fields(0x23, base, rt, offset)] <= s.probe
    ensures Served(t, room) && Enters(s, t) && t.reg == s.reg[rt := s.mem[Phys(s.reg[base] + offset)]]
    ensures t.mem == s.mem && t.probe == s.probe[1..] && t.fifo == s.fifo && t.out == s.out
  {
    hide TryStep, Fields, Phys;
    assert s.probe[0] == Fields(0x23, base, rt, offset);
    Serve(s, room, 0x23, base, rt, offset);
    t := TryStep(s).value;
    Walk([s, t]);
  }

  lemma SetupFields()
    ensures |BMX_SETUP| == 10
    ensures BMX_SETUP[..5] == [ Fields(0x0F, 0, A0, 0xbf88), Fields(0x0D, A0, A0, 0x2000),
                                Fields(0x0F, 0, A1, 0x001f), Fields(0x0D, A1, A1, 0x0040),
                                Fields(0x2B, A0, A1, 0) ]
    ensures BMX_SETUP[5..] == [ Fields(0x0D, 0, A1, 0x0800), Fields(0x2B, A0, A1, 16),
                                Fields(0x23, A0, A1, 64), Fields(0x2B, A0, A1, 32), Fields(0x2B, A0, A1, 48) ]
  {
  }

  lemma AimFields()
    ensures AIM == [Fields(0x0F, 0, A0, 0xa000), Fields(0x0D, A0, A0, 0x0800)]
  {
  }

  lemma JumpFields()
    ensures JUMP == [Fields(0x0F, 0, 25, 0xa000), Fields(0x0D, 25, 25, 0x0800), Fields(0, 25, 0, 8), 0]
  {
  }

  /** Step 1. */
  lemma SetsBmxcon(s: Cpu, room: nat) returns (t: Cpu)
    requires Served(s, room + 5) && BMX_SETUP[..5] <= s.probe
    ensures Served(t, room) && Enters(s, t) && t.reg[A0] == 0xBF88_2000
    ensures t.mem == s.mem[BMXCON := 0x001f_0040]
    ensures t.probe == s.probe[5..] && t.fifo == s.fifo && t.out == s.out
  {
    hide TryStep, Fields, Enters, BMX_SETUP;
    SetupFields();
    assert forall j :: 0 <= j < 5 ==> s.probe[j] == BMX_SETUP[..5][j];
    var s1 := BuildsWord(s, room + 3, A0, 0xbf88, 0x2000);
    var s2 := BuildsWord(s1, room + 1, A1, 0x001f, 0x0040);
    t := StoresWord(s2, room, A1, A0, 0);
    EntersTransitive(s, s1, s2);
    EntersTransitive(s, s2, t);
  }

  /** Steps 2 and 3. */
  lemma SetsBoundaries(s: Cpu, room: nat) returns (t: Cpu)
    requires Served(s, room + 5) && BMX_SETUP[5..] <= s.probe && s.reg[A0] == 0xBF88_2000 && BMXDMSZ in s.mem
    ensures Served(t, room) && Enters(s, t)
    ensures t.mem == s.mem[BMXDKPBA := 0x800][BMXDUDBA := s.mem[BMXDMSZ]][BMXDUPBA := s.mem[BMXDMSZ]]
    ensures t.probe == s.probe[5..] && t.fifo == s.fifo && t.out == s.out
  {
    hide TryStep, Fields, Enters, BMX_SETUP;
    SetupFields();
    assert forall j :: 0 <= j < 5 ==> s.probe[j] == BMX_SETUP[5..][j];
    var s1 := SetsImmediate(s, room + 4, A1, 0x0800);
    var s2 := StoresWord(s1, room + 3, A1, A0, 16);
    var s3 := LoadsWord(s2, room + 2, A1, A0, 64);
    var s4 := StoresWord(s3, room + 1, A1, A0, 32);
    t := StoresWord(s4, room, A1, A0, 48);
    EntersTransitive(s, s1, s2);
    EntersTransitive(s, s2, s3);
    EntersTransitive(s, s3, s4);
    EntersTransitive(s, s4, t);
  }

  lemma Partitions(s: Cpu, room: nat) returns (t: Cpu)
    requires Served(s, room + 10) && BMXDMSZ in s.mem && BMX_SETUP <= s.probe
    ensures Served(t, room) && Enters(s, t)
    ensures t.mem == Partitioned(s.mem)
    ensures t.probe == s.probe[10..] && t.fifo == s.fifo && t.out == s.out
  {
    hide TryStep, Fields, Enters, BMX_SETUP;
    SetupFields();
    assert BMX_SETUP[5..] <= s.probe[5..];
    var m := SetsBmxcon(s, room + 5);
    t := SetsBoundaries(m, room);
    EntersTransitive(s, m, t);
  }

  lemma JumpsToLoader(s: Cpu) returns (t: Cpu)
    requires Served(s, 4) && JUMP <= s.probe
    ensures Mips.Valid(t) && Enters(s, t) && At(t, 0)
    ensures t.mem == s.mem && t.probe == s.probe[4..] && t.fifo == s.fifo && t.out == s.out
  {
    hide TryStep, Fields;
    JumpFields();
    assert forall j :: 0 <= j < 4 ==> s.probe[j] == JUMP[j];
    var s1 := BuildsWord(s, 2, 25, 0xa000, 0x0800);
    Serve(s1, 1, 0, 25, 0, 8);
    assert s1.probe[0] != 0 by { FieldsZero(0, 25, 0, 8); }
    var s2 := TryStep(s1).value;
    assert TryStep(s2) == Some(Next(s2.(probe := s2.probe[1..]))) by { NopServed(s2); }
    t := TryStep(s2).value;
    Walk([s1, s2, t]);
    EntersTransitive(s, s1, t);
  }

  lemma NopServed(s: Cpu)
    requires Mips.Valid(s) && ProbeFetch(s.pc) && s.probe != [] && s.probe[0] == 0
    ensures TryStep(s) == Some(Next(s.(probe := s.probe[1..])))
  {
  }

  /** Memory after the installation. */
  function Installed(mem: map<Word, Word>, mz: bool): map<Word, Word>
    requires mz || BMXDMSZ in mem
  {
    PlantedFrom(if mz then mem else Partitioned(mem), 0)
  }

  /** Steps 4 to 6. */
  lemma InstallsLoader(s: Cpu, more: seq<Word>) returns (t: Cpu)
    requires Served(s, 90) && s.probe == AIM + PlantFrom(0) + JUMP + more
    ensures Mips.Valid(t) && Enters(s, t) && At(t, 0) && LoaderIn(t.mem)
    ensures t.mem == PlantedFrom(s.mem, 0)
    ensures t.probe == more && t.fifo == s.fifo && t.out == s.out
  {
    hide TryStep, Fields, PlantFrom, PlantedFrom, LoaderWord, Step, Enters;
    AimFields();
    var b := BuildsWord(s, 88, A0, 0xa000, 0x0800);
    assert b.probe == PlantFrom(0) + JUMP + more;
    var c := PlantsFrom(b, 0, 4);
    assert c.probe == JUMP + more;
    t := JumpsToLoader(c);
    PlantedExactly(s.mem, 0);
    EntersTransitive(s, b, c);
    EntersTransitive(s, c, t);
  }

  /** The emitted instructions leave the loader in RAM and the processor at its first
      instruction. */
  lemma Installs(s: Cpu, mz: bool, more: seq<Word>) returns (t: Cpu)
    requires Served(s, 100) && (mz || BMXDMSZ in s.mem)
    requires s.probe == Install(mz) + more
    ensures Mips.Valid(t) && Enters(s, t) && At(t, 0) && LoaderIn(t.mem)
    ensures t.mem == Installed(s.mem, mz)
    ensures t.probe == more && t.fifo == s.fifo && t.out == s.out
  {
    hide TryStep, PlantFrom, PlantedFrom, Partitioned, LoaderIn, Step, Enters;
    var rest := AIM + PlantFrom(0) + JUMP + more;
    if mz {
      assert s.probe == rest;
      t := InstallsLoader(s, more);
    } else {
      assert s.probe == BMX_SETUP + rest;
      var a := Partitions(s, 90);
      t := InstallsLoader(a, more);
      EntersTransitive(s, a, t);
    }
  }

  // ----- Installing the executive ---------------------------------------------------

  /** Room for the executive in its window. */
  const PE_LIMIT: nat := 0x07FF_FDC0

  /** FASTDATA stream of the download: one block and the end mark. */
  function Download(pe: seq<Word>): seq<Word>
    requires |pe| <= PE_LIMIT
  {
    [PE_BASE, |pe|] + pe + [0, END_MARK]
  }

  lemma {:induction false} StorableInRam(a: Word, n: nat)
    requires PE_BASE <= a && a + 4 * n <= 0xC000_0000 && a % 4 == 0
    ensures StorableFrom(a, n)
    decreases n
  {
    if n > 0 && a + 4 < 0xC000_0000 {
      StorableInRam(a + 4, n - 1);
    }
  }

  /** A block stored in kernel RAM: word `i` is in its place. */
  lemma {:induction false} WrittenAt(mem: map<Word, Word>, a: Word, words: seq<Word>, i: nat)
    requires 0xA000_0000 <= a && a + 4 * |words| <= 0xC000_0000 && i < |words|
    ensures var now := WriteWords(mem, a, words);
            var p := a - 0xA000_0000 + 4 * i;
            p in now && now[p] == words[i]
    decreases |words|
  {
    hide WriteWords;
    WriteWordsStep(mem, a, words);
    var p := a - 0xA000_0000;
    if i > 0 {
      WrittenAt(mem[p := words[0]], a + 4, words[1..], i - 1);
    } else if |words| > 1 {
      UntouchedAt(mem[p := words[0]], a + 4, words[1..], p);
    }
  }

  /** ... and everything outside the block is as before. */
  lemma {:induction false} UntouchedAt(mem: map<Word, Word>, a: Word, words: seq<Word>, q: Word)
    requires 0xA000_0000 <= a && a + 4 * |words| <= 0xC000_0000
    requires !(a - 0xA000_0000 <= q < a - 0xA000_0000 + 4 * |words|)
    ensures var now := WriteWords(mem, a, words);
            (q in now <==> q in mem) && (q in mem ==> now[q] == mem[q])
    decreases |words|
  {
    if words != [] {
      WriteWordsStep(mem, a, words);
      if |words| > 1 {
        UntouchedAt(mem[a - 0xA000_0000 := words[0]], a + 4, words[1..], q);
      }
    }
  }

  lemma WriteWordsStep(mem: map<Word, Word>, a: Word, words: seq<Word>)
    requires 0xA000_0000 <= a && a + 4 * |words| <= 0xC000_0000 && words != []
    ensures var next := mem[a - 0xA000_0000 := words[0]];
            WriteWords(mem, a, words) == if |words| == 1 then next else WriteWords(next, a + 4, words[1..])
  {
    if |words| == 1 {
      assert words[1..] == [];
    }
  }

  lemma OneBlockWritten(mem: map<Word, Word>, b: Block)
    ensures WriteBlocks(mem, [b]) == WriteWords(mem, b.address, b.words)
  {
    assert [b][1..] == [];
  }

  /** End to end on the target: the instructions and the stream that the host sends leave
      the executive in RAM, word for word, the processor at its entry point, and whatever
      follows (the version request) as the next word to be read. */
  lemma ExecutiveStarts(s: Cpu, mz: bool, pe: seq<Word>, after: seq<Word>) returns (t: Cpu)
    requires Served(s, 100) && (mz || BMXDMSZ in s.mem) && |pe| <= PE_LIMIT
    requires s.probe == Install(mz) && s.fifo == Download(pe) + after
    ensures Mips.Valid(t) && Enters(s, t) && t.pc == PE_BASE && t.npc == PE_BASE + 4
    ensures t.mem == WriteWords(Installed(s.mem, mz), PE_BASE, pe)
    ensures forall i: nat :: i < |pe| ==> 0x900 + 4 * i in t.mem && t.mem[0x900 + 4 * i] == pe[i]
    ensures t.fifo == after && t.out == s.out && t.probe == []
  {
    hide TryStep, Plant, Install, Installed, LoaderIn, Enters, WriteWords;
    assert Install(mz) + [] == Install(mz);
    var m := Installs(s, mz, []);
    var block := Block(PE_BASE, pe);
    StorableInRam(PE_BASE, |pe|);
    assert BlocksStream([block]) == BlockStream(block) by { assert [block][1..] == []; assert BlocksStream([]) == []; }
    assert m.fifo == BlocksStream([block]) + [0, END_MARK] + after;
    t := LoaderRuns(m, [block], 0, after);
    OneBlockWritten(m.mem, block);
    EntersTransitive(s, m, t);
    forall i: nat | i < |pe|
      ensures 0x900 + 4 * i in t.mem && t.mem[0x900 + 4 * i] == pe[i]
    {
      WrittenAt(m.mem, PE_BASE, pe, i);
    }
  }

  /** Whatever the timing: instructions and data may arrive at any moment, between any two
      steps of the processor. The state with the executive in RAM and about to run lies on
      the run the processor makes. */
  lemma ExecutiveStartsAnyTime(s: Cpu, events: seq<Event>, mz: bool, pe: seq<Word>, after: seq<Word>)
    returns (t: Cpu)
    requires Served(s, 100) && (mz || BMXDMSZ in s.mem) && |pe| <= PE_LIMIT
    requires s.probe == [] && s.fifo == []
    requires Instructions(events) == Install(mz) && DataWords(events) == Download(pe) + after
    ensures Mips.Valid(t) && (Reaches(Play(s, events), t) || Reaches(t, Play(s, events)))
    ensures t.pc == PE_BASE && t.mem == WriteWords(Installed(s.mem, mz), PE_BASE, pe)
    ensures t.fifo == after && t.out == s.out && t.probe == []
  {
    hide Step, Install, Installed, Download, Play, Enters;
    var f := Feed(s, Instructions(events), DataWords(events));
    assert s.probe + Install(mz) == Install(mz);
    assert s.fifo + (Download(pe) + after) == Download(pe) + after;
    t := ExecutiveStarts(f, mz, pe, after);
    EntersReaches(f, t);
    TimingIrrelevant(s, events);
    ReachesLinear(f, t, Play(s, events));
  }

  lemma EntersReaches(s: Cpu, t: Cpu)
    requires Mips.Valid(s) && Enters(s, t)
    ensures Reaches(s, t)
  {
    LeadsReaches(s, t, PE_BASE);
  }

  /** The situation these results are about exists, for every executive and every memory: a
      processor waiting in the probe's segment with the words in its queues. */
  lemma TargetExists(mem: map<Word, Word>, mz: bool, pe: seq<Word>, after: seq<Word>) returns (s: Cpu)
    requires (mz || BMXDMSZ in mem) && |pe| <= PE_LIMIT
    ensures Served(s, 100) && (mz || BMXDMSZ in s.mem) && s.mem == mem
    ensures s.probe == Install(mz) && s.fifo == Download(pe) + after
  {
    hide Install, Download, Served;
    s := Waiting(mem, Install(mz), Download(pe) + after);
  }

  function Waiting(mem: map<Word, Word>, probe: seq<Word>, fifo: seq<Word>): (s: Cpu)
    ensures Served(s, 100) && s.mem == mem && s.probe == probe && s.fifo == fifo
  {
    var zeros: seq<Word> := seq(32, _ => 0);
    Cpu(zeros, 0xFF20_0200, 0xFF20_0204, mem, probe, fifo, [])
  }
}
