/** Downloading the programming executive through the USB adapter, and through a
    PICkit2 whose download comes in groups of ten words. */
module Executive {
  import opened Words
  import opened Bits
  import opened Tap
  import opened Ejtag
  import opened Firmware
  import opened Host
  import Mips
  import opened Loader
  import opened Installer
  import opened PickitRead

  /** Commands of the executive that travel in the high half of a word. */
  const PE_EXEC_VERSION: Word := 0x0007_0000

  /** The three queues between the host and the processor, and the readiness flag. */
  datatype Traffic = Traffic(probe: seq<Word>, fifo: seq<Word>, out: seq<Word>, ready: bool)

  function TrafficOf(r: Registers): Traffic
  {
    Traffic(r.probe, r.fifo, r.out, r.ready)
  }

  /** Give the processor one instruction. */
  method Give(a: UsbPic, w: Word)
    requires a.AtRest() && a.Regs().ready && a.Regs().out == []
    modifies a.Repr()
    ensures a.AtRest() && a.Mode() == old(a.Mode())
    ensures TrafficOf(a.Regs()) == TrafficOf(old(a.Regs())).(probe := old(a.Regs().probe) + [w])
  {
    hide Supply, Tap.Valid;
    SupplyQueues(a.Regs(), w);
    var ok := a.XferInstruction(w);
  }

  /** Send one FASTDATA word. */
  method Send(a: UsbPic, w: Word) returns (ok: bool)
    requires a.AtRest() && a.Regs().ready && a.Regs().out == [] && a.Regs().ir == ToBits(ETAP_FASTDATA, 5)
    modifies a.Repr()
    ensures a.AtRest() && a.Mode() == old(a.Mode()) && ok
    ensures a.Regs().ir == old(a.Regs().ir)
    ensures TrafficOf(a.Regs()) == TrafficOf(old(a.Regs())).(fifo := old(a.Regs().fifo) + [w])
  {
    hide Tap.Valid, ToBits;
    var r := a.XferFastData(w);
    ok := r.Some?;
  }

  /** Instructions that plant the first `k` loader words. */
  function PlantTo(k: nat): seq<Word>
    requires k <= 21
  {
    if k == 0 then [] else PlantTo(k - 1) + Plant(k - 1)
  }

  lemma {:induction false} PlantToAndFrom(k: nat)
    requires k <= 21
    ensures PlantTo(k) + PlantFrom(k) == PlantFrom(0)
    decreases k
  {
    hide Plant;
    if k > 0 {
      PlantToAndFrom(k - 1);
      assert PlantFrom(k - 1) == Plant(k - 1) + PlantFrom(k);
      assert PlantTo(k) + PlantFrom(k) == PlantTo(k - 1) + (Plant(k - 1) + PlantFrom(k));
    }
  }

  /** Step 1. */
  method GiveBmxcon(a: UsbPic)
    requires a.AtRest() && a.Regs().ready && a.Regs().out == []
    modifies a.Repr()
    ensures a.AtRest() && a.Mode() == old(a.Mode())
    ensures TrafficOf(a.Regs()) == TrafficOf(old(a.Regs())).(probe := old(a.Regs().probe) + BMX_SETUP[..5])
  {
    hide Tap.Valid, UsbPic.AtRest;
    ghost var p := a.Regs().probe;
    Give(a, 0x3c04bf88);
    Give(a, 0x34842000);
    Give(a, 0x3c05001f);
    Give(a, 0x34a50040);
    Give(a, 0xac850000);
    assert a.Regs().probe == p + BMX_SETUP[..5];
  }

  /** Steps 2 and 3. */
  method GiveBoundaries(a: UsbPic)
    requires a.AtRest() && a.Regs().ready && a.Regs().out == []
    modifies a.Repr()
    ensures a.AtRest() && a.Mode() == old(a.Mode())
    ensures TrafficOf(a.Regs()) == TrafficOf(old(a.Regs())).(probe := old(a.Regs().probe) + BMX_SETUP[5..])
  {
    hide Tap.Valid, UsbPic.AtRest;
    ghost var p := a.Regs().probe;
    Give(a, 0x34050800);
    Give(a, 0xac850010);
    Give(a, 0x8c850040);
    Give(a, 0xac850020);
    Give(a, 0xac850030);
    assert a.Regs().probe == p + BMX_SETUP[5..];
  }

  /** Steps 1 to 3. */
  method GiveSetup(a: UsbPic)
    requires a.AtRest() && a.Regs().ready && a.Regs().out == []
    modifies a.Repr()
    ensures a.AtRest() && a.Mode() == old(a.Mode())
    ensures TrafficOf(a.Regs()) == TrafficOf(old(a.Regs())).(probe := old(a.Regs().probe) + BMX_SETUP)
  {
    hide Tap.Valid, UsbPic.AtRest;
    ghost var p := a.Regs().probe;
    GiveBmxcon(a);
    GiveBoundaries(a);
    assert a.Regs().probe == p + (BMX_SETUP[..5] + BMX_SETUP[5..]);
  }

  /** Step 4. */
  method GiveAim(a: UsbPic)
    requires a.AtRest() && a.Regs().ready && a.Regs().out == []
    modifies a.Repr()
    ensures a.AtRest() && a.Mode() == old(a.Mode())
    ensures TrafficOf(a.Regs()) == TrafficOf(old(a.Regs())).(probe := old(a.Regs().probe) + AIM)
  {
    hide Tap.Valid, UsbPic.AtRest;
    ghost var p := a.Regs().probe;
    Give(a, 0x3c04a000);
    Give(a, 0x34840800);
    assert a.Regs().probe == p + AIM;
  }

  method GiveLoaderWord(a: UsbPic, high: Half, low: Half)
    requires a.AtRest() && a.Regs().ready && a.Regs().out == []
    modifies a.Repr()
    ensures a.AtRest() && a.Mode() == old(a.Mode())
    ensures TrafficOf(a.Regs()) == TrafficOf(old(a.Regs())).(
              probe := old(a.Regs().probe) + [Mips.Wrap(Or(0x3c060000, high)), Mips.Wrap(Or(0x34c60000, low)),
                                              0xac860000, 0x24840004])
  {
    hide Tap.Valid;
    ghost var t := TrafficOf(a.Regs());
    var opcode1, opcode2 := Mips.Wrap(Or(0x3c060000, high)), Mips.Wrap(Or(0x34c60000, low));
    Give(a, opcode1);
    Give(a, opcode2);
    Give(a, 0xac860000);
    Give(a, 0x24840004);
    assert a.Regs().probe == t.probe + [opcode1, opcode2, 0xac860000, 0x24840004];
  }

  /** Step 5. */
  method PlantWords(a: UsbPic)
    requires a.AtRest() && a.Regs().ready && a.Regs().out == []
    modifies a.Repr()
    ensures a.AtRest() && a.Mode() == old(a.Mode())
    ensures TrafficOf(a.Regs()) == TrafficOf(old(a.Regs())).(probe := old(a.Regs().probe) + PlantFrom(0))
  {
    hide Tap.Valid, UsbPic.AtRest, PE_LOADER, PlantTo, PlantFrom;
    ghost var t := TrafficOf(a.Regs());
    PlantToStart(t.probe);
    var i := 0;
    while i < |PE_LOADER|
      invariant i % 2 == 0 && 0 <= i <= 42
      invariant a.AtRest() && a.Mode() == old(a.Mode())
      invariant TrafficOf(a.Regs()) == t.(probe := t.probe + PlantTo(i / 2))
    {
      PlantToNext(t.probe, i / 2);
      GiveLoaderWord(a, PE_LOADER[i], PE_LOADER[i + 1]);
      i := i + 2;
    }
    PlantToAll();
  }

  lemma PlantToStart(p: seq<Word>)
    ensures |PE_LOADER| == 42 && p + PlantTo(0) == p
  {
  }

  lemma PlantToNext(p: seq<Word>, k: Index)
    ensures |PE_LOADER| == 42
    ensures p + PlantTo(k) + [Mips.Wrap(Or(0x3c060000, PE_LOADER[2 * k])),
                              Mips.Wrap(Or(0x34c60000, PE_LOADER[2 * k + 1])),
                              0xac860000, 0x24840004]
            == p + PlantTo(k + 1)
  {
  }

  /** Step 6. */
  method GiveJump(a: UsbPic)
    requires a.AtRest() && a.Regs().ready && a.Regs().out == []
    modifies a.Repr()
    ensures a.AtRest() && a.Mode() == old(a.Mode())
    ensures TrafficOf(a.Regs()) == TrafficOf(old(a.Regs())).(probe := old(a.Regs().probe) + JUMP)
  {
    hide Tap.Valid, UsbPic.AtRest;
    ghost var p := a.Regs().probe;
    Give(a, 0x3c19a000);
    Give(a, 0x37390800);
    Give(a, 0x03200008);
    Give(a, 0x00000000);
    assert a.Regs().probe == p + JUMP;
  }

  /** Steps 1 to 6. */
  method PlantLoader(a: UsbPic, mz: bool)
    requires a.AtRest() && a.Regs().ready && a.Regs().out == []
    modifies a.Repr()
    ensures a.AtRest() && a.Mode() == old(a.Mode())
    ensures TrafficOf(a.Regs()) == TrafficOf(old(a.Regs())).(probe := old(a.Regs().probe) + Install(mz))
  {
    hide Tap.Valid, PlantFrom, UsbPic.AtRest;
    ghost var p := a.Regs().probe;
    if !mz {
      GiveSetup(a);
    }
    GiveAim(a);
    PlantWords(a);
    GiveJump(a);
    assert a.Regs().probe == p + ((if mz then [] else BMX_SETUP) + AIM + PlantFrom(0) + JUMP);
  }

  lemma PlantToAll()
    ensures PlantTo(21) == PlantFrom(0)
  {
    hide PlantTo;
    PlantToAndFrom(21);
  }

  /** Step 7-B. */
  method SendWords(a: UsbPic, words: seq<Word>, n: nat)
    requires a.AtRest() && a.Regs().ready && a.Regs().out == [] && a.Regs().ir == ToBits(ETAP_FASTDATA, 5) &&
             n <= |words|
    modifies a.Repr()
    ensures a.AtRest() && a.Mode() == old(a.Mode())
    ensures a.Regs().ir == old(a.Regs().ir)
    ensures TrafficOf(a.Regs()) == TrafficOf(old(a.Regs())).(fifo := old(a.Regs().fifo) + words[..n])
  {
    hide Tap.Valid, ToBits, UsbPic.AtRest;
    ghost var t := TrafficOf(a.Regs());
    assert t.fifo + words[..0] == t.fifo;
    var i := 0;
    while i < n
      invariant 0 <= i <= n
      invariant a.AtRest() && a.Mode() == old(a.Mode())
      invariant a.Regs().ir == ToBits(ETAP_FASTDATA, 5)
      invariant TrafficOf(a.Regs()) == t.(fifo := t.fifo + words[..i])
    {
      var ok := Send(a, words[i]);
      assert t.fifo + words[..i] + [words[i]] == t.fifo + words[..i + 1];
      i := i + 1;
    }
  }

  /** Steps 7 and 8, and the version request. */
  method SendDownload(a: UsbPic, pe: seq<Word>, nwords: nat)
    requires a.AtRest() && a.Regs().ready && a.Regs().out == [] && nwords <= |pe| && nwords <= PE_LIMIT
    modifies a.Repr()
    ensures a.AtRest() && a.Mode() == old(a.Mode())
    ensures TrafficOf(a.Regs())
         == TrafficOf(old(a.Regs())).(fifo := old(a.Regs().fifo) + Download(pe[..nwords]) + [PE_EXEC_VERSION])
  {
    hide Tap.Valid, ToBits, UsbPic.AtRest;
    ghost var fifo := a.Regs().fifo;
    a.Choose(0x0E);
    var ok := Send(a, PE_BASE);
    ok := Send(a, nwords);
    SendWords(a, pe, nwords);
    ok := Send(a, 0);
    ok := Send(a, END_MARK);
    ok := Send(a, PE_EXEC_VERSION);
    assert a.Regs().fifo == fifo + Download(pe[..nwords]) + [PE_EXEC_VERSION];
  }

  /** The download: loader, executive, end mark, version request. The executive's answer
      is an input; the host goes on only if it is the expected version. */
  method LoadExecutive(a: UsbPic, mz: bool, pe: seq<Word>, nwords: nat, peVersion: Half, answer: Word)
    returns (ok: bool)
    requires a.AtRest() && a.Regs().ready && a.Regs().out == []
    requires nwords <= |pe| && nwords <= PE_LIMIT
    modifies a, a.Repr()
    ensures a.AtRest() && a.Mode() == old(a.Mode()) && a.useExecutive
    ensures a.Regs().out == [] && a.Regs().ready
    ensures a.Regs().probe == old(a.Regs().probe) + Install(mz)
    ensures a.Regs().fifo == old(a.Regs().fifo) + Download(pe[..nwords]) + [PE_EXEC_VERSION]
    ensures ok <==> answer == PE_EXEC_VERSION + peVersion
  {
    hide Tap.Valid, Install, ToBits, UsbPic.AtRest;
    a.useExecutive := true;
    PlantLoader(a, mz);
    SendDownload(a, pe, nwords);
    a.TargetStores([answer]);
    var version := a.GetPeResponse();
    ok := version.Some? && version.value == PE_EXEC_VERSION + peVersion;
  }

  /** The same from the target's side: what reached its queues makes the processor `s` plant
      and run the loader, copy the executive and start it, with the version request as the
      next word it will read. */
  method LoadOnto(a: UsbPic, mz: bool, pe: seq<Word>, nwords: nat, peVersion: Half, answer: Word, ghost s: Mips.Cpu)
    returns (ok: bool, ghost t: Mips.Cpu)
    requires a.AtRest() && a.Regs().ready && a.Regs().out == [] && a.Regs().probe == [] && a.Regs().fifo == []
    requires nwords <= |pe| && nwords <= PE_LIMIT
    requires Served(Arrived(s, Install(mz), Download(pe[..nwords]) + [PE_EXEC_VERSION]), 100) &&
             (mz || BMXDMSZ in s.mem)
    modifies a, a.Repr()
    ensures a.AtRest() && (ok <==> answer == PE_EXEC_VERSION + peVersion)
    ensures Mips.Valid(t) && Enters(Arrived(s, a.Regs().probe, a.Regs().fifo), t)
    ensures t.pc == PE_BASE && t.fifo == [PE_EXEC_VERSION] && t.probe == []
    ensures forall i: nat :: i < nwords ==> 0x900 + 4 * i in t.mem && t.mem[0x900 + 4 * i] == pe[i]
  {
    hide Tap.Valid, UsbPic.AtRest, Install, Download, Enters, WriteWords, Installed;
    ok := LoadExecutive(a, mz, pe, nwords, peVersion, answer);
    assert [] + Install(mz) == Install(mz);
    assert [] + Download(pe[..nwords]) + [PE_EXEC_VERSION] == Download(pe[..nwords]) + [PE_EXEC_VERSION];
    t := ExecutiveStarts(Arrived(s, Install(mz), Download(pe[..nwords]) + [PE_EXEC_VERSION]), mz, pe[..nwords],
                         [PE_EXEC_VERSION]);
  }

  /** A processor with these words in its queues. */
  function Arrived(s: Mips.Cpu, probe: seq<Word>, fifo: seq<Word>): Mips.Cpu
  {
    s.(probe := probe, fifo := fifo)
  }

  method GiveFirstBatch(a: UsbPic, addr: Word)
    requires a.AtRest() && a.Regs().ready && a.Regs().out == [] && a.Regs().probe == []
    modifies a.Repr()
    ensures a.AtRest() && a.Mode() == old(a.Mode())
    ensures TrafficOf(a.Regs()) == TrafficOf(old(a.Regs())).(probe := FirstBatch(addr))
  {
    hide Tap.Valid, UsbPic.AtRest;
    Give(a, 0x3c13ff20);
    Give(a, Mips.Wrap(Or(0x3c080000, addr / 0x1_0000 % 0x1_0000)));
    Give(a, Mips.Wrap(Or(0x35080000, addr % 0x1_0000)));
    Give(a, 0x8d090000);
    Give(a, 0xae690000);
    Give(a, 0);
  }

  /** What a word read returns. Over two wires the low bit is lost, so only odd words are
      read faithfully. */
  lemma FastReplyFaithful(r: Registers, mode: Byte, w: Word)
    requires r.out == [w] && r.ready && (mode == WIRES_JTAG || mode == WIRES_ICSP)
    ensures Checked(FastReply(r, mode)) == Some(w) <==> w != BAD_REPLY && (mode == WIRES_JTAG || w % 2 == 1)
    ensures FastTransfer(r, 0) == r.(out := [])
  {
  }

  /** Read a word of memory without the executive. What the packets have put into the target's
      queue makes the processor `s` run until it waits, as `t`, with the word stored for the
      probe. */
  method ReadWord(a: UsbPic, addr: Word, s: Mips.Cpu) returns (r: Option<Word>, ghost t: Mips.Cpu)
    requires a.AtRest() && a.Regs().ready && a.Regs().out == [] && a.Regs().probe == []
    requires Served(s, 20) && Readable(s, addr) && s.out == []
    modifies a.Repr()
    ensures a.AtRest() && a.Mode() == old(a.Mode())
    ensures a.Regs().out == [] && a.Regs().fifo == old(a.Regs().fifo)
    ensures Mips.Valid(t) && Enters(Arrived(s, a.Regs().probe, s.fifo), t) && Mips.Blocked(t)
    ensures var word := s.mem[Mips.Phys(addr)];
            && t.out == [word]
            && (r == Some(word) <==> word != BAD_REPLY && (a.Mode() == WIRES_JTAG || word % 2 == 1))
  {
    assert a.Mode() == WIRES_JTAG || a.Mode() == WIRES_ICSP;
    hide Tap.Valid, ToBits, UsbPic.AtRest, Mips.Blocked, Enters, Mips.Phys, FastTransfer, FirstBatch;
    var word := s.mem[Mips.Phys(addr)];
    t := FirstBatchRuns(Arrived(s, FirstBatch(addr), s.fifo), addr, 14);
    a.Choose(0x05);
    a.ResetTap();
    GiveFirstBatch(a, addr);
    a.Choose(0x0E);
    a.TargetStores([word]);
    FastReplyFaithful(a.Regs(), a.Mode(), word);
    r := a.XferFastData(0x00);
  }
}
