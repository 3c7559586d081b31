/** Reading a word of memory with the PICkit2: two instruction sequences, each followed by
    an access that reads only 32 of the 33 bits of FASTDATA. */
module PickitRead {
  import opened Words
  import opened Bits
  import opened Tap
  import opened Ejtag
  import Mips
  import opened Loader
  import opened Installer

  /** Fetch the word at an address into t1. */
  function FetchWord(addr: Word): seq<Word>
  {
    [ 0x3c13ff20,
      Mips.Wrap(Or(0x3c080000, addr / 0x1_0000 % 0x1_0000)),
      Mips.Wrap(Or(0x35080000, addr % 0x1_0000)),
      0x8d090000 ]
  }

  function FirstBatch(addr: Word): seq<Word>
  {
    FetchWord(addr) + [0xae690000, 0]
  }

  function SecondBatch(addr: Word): seq<Word>
  {
    FetchWord(addr) + [0x00094842, 0xae690004, 0]
  }

  /** The first 32 bits that a FASTDATA access reads. */
  function TruncatedRead(r: Registers): Word
    requires |Capture(r)| == 33
  {
    WordOf(Capture(r)[..32])
  }

  /** The registers after shifting 32 zeros through the 33-bit register. */
  function AfterTruncated(r: Registers): Registers
    requires |Capture(r)| == 33
  {
    Update(r, (Capture(r) + seq(32, _ => false))[32..])
  }

  /** The host's recombination: 31 bits from the first word, the top bit from the second. */
  function Recombine(word1: Word, word2: Word): nat
  {
    Or(word1 / 2, if word2 >= 0x8000_0000 then 0x8000_0000 else 0)
  }

  /** The script's instruction transfer: it waits until the processor is ready. */
  function SupplyReady(r: Registers, w: Word): Registers
  {
    Supply(r.(ready := true), w)
  }

  function SupplyAll(r: Registers, words: seq<Word>): Registers
    decreases |words|
  {
    if words == [] then r else SupplyAll(SupplyReady(r, words[0]), words[1..])
  }

  lemma {:induction false} SuppliesAll(r: Registers, words: seq<Word>)
    requires r.out == []
    ensures SupplyAll(r, words).probe == r.probe + words
    ensures SupplyAll(r, words).out == []
    decreases |words|
  {
    hide Supply;
    if words == [] {
      assert r.probe + words == r.probe;
    } else {
      SupplyQueues(r.(ready := true), words[0]);
      SuppliesAll(SupplyReady(r, words[0]), words[1..]);
      assert r.probe + [words[0]] + words[1..] == r.probe + words;
    }
  }

  // ----- The truncated access ------------------------------------------------------

  lemma TruncatedWord(r: Registers, v: Word)
    requires r.ir == ToBits(ETAP_FASTDATA, 5) && r.out == [v]
    ensures |Capture(r)| == 33
    ensures TruncatedRead(r) == (if r.ready then 1 else 0) + 2 * (v % 0x8000_0000)
  {
    hide FromBits, ToBits, Capture;
    assert Select(r, ETAP_FASTDATA) == r;
    AccessFastData(r, 0);
    var bits := ToBits(v, 32);
    ToBitsPrefix(v, 31, 32);
    assert Capture(r)[..32] == [r.ready] + ToBits(v, 31);
    Pow2Of31();
    LowBits(v / 0x8000_0000, v % 0x8000_0000, 31);
    PrependBit(r.ready, ToBits(v, 31));
  }

  lemma Pow2Of31()
    ensures Pow2(31) == 0x8000_0000
  {
    Pow2Values();
    assert Pow2(32) == 2 * Pow2(31);
  }

  lemma PrependBit(b: bool, bits: seq<bool>)
    ensures FromBits([b] + bits) == (if b then 1 else 0) + 2 * FromBits(bits)
  {
    assert ([b] + bits)[1..] == bits;
  }

  /** The zeros sent do not all get in: the handshake bit is written with the top bit of
      the word read. A word with that bit set leaves the store pending, and so does an access
      that PrAcc does not show. */
  lemma TruncatedUpdate(r: Registers, v: Word)
    requires r.ir == ToBits(ETAP_FASTDATA, 5) && r.out == [v]
    ensures |Capture(r)| == 33
    ensures AfterTruncated(r) == if v >= 0x8000_0000 || !r.ready then r else r.(out := [])
  {
    hide FromBits, ToBits;
    assert Select(r, ETAP_FASTDATA) == r;
    AccessFastData(r, 0);
    SelectCode(r, ETAP_FASTDATA);
    var chain := (Capture(r) + seq(32, _ => false))[32..];
    assert chain[0] == Capture(r)[32] == ToBits(v, 32)[31];
    ToBitsAt(v, 32, 31);
    TopBit(v);
  }

  lemma TopBit(v: Word)
    ensures Bit(v, 31) == (v >= 0x8000_0000)
  {
    hide Bit;
    BitOfWord(v, 31);
    TopBitOfByte(ByteOf(v, 3));
  }

  lemma TopBitOfByte(b: Byte)
    ensures Bit(b, 7) == (b >= 0x80)
  {
    assert Bit(b, 7) == Bit(b / 2 / 2 / 2 / 2, 3) by { assert Bit(b, 7) == Bit(b / 2 / 2, 5); }
    assert b / 2 / 2 / 2 / 2 == b / 16;
    assert Bit(b / 16, 3) == (b / 16 / 2 / 2 / 2 % 2 == 1);
    assert b / 16 / 2 / 2 / 2 == b / 128;
  }

  // ----- The instruction sequences ---------------------------------------------------

  const S3: Mips.Reg := 19
  const T0: Mips.Reg := 8
  const T1: Mips.Reg := 9

  function High(addr: Word): Half
  {
    addr / 0x1_0000 % 0x1_0000
  }

  function Low(addr: Word): Half
  {
    addr % 0x1_0000
  }

  lemma FetchFields(addr: Word)
    ensures FetchWord(addr) == [ Mips.Fields(0x0F, 0, S3, 0xFF20), Mips.Fields(0x0F, 0, T0, High(addr)),
                                 Mips.Fields(0x0D, T0, T0, Low(addr)), Mips.Fields(0x23, T0, T1, 0) ]
    ensures [0xae690000, 0] == [Mips.Fields(0x2B, S3, T1, 0), 0]
    ensures [0x00094842, 0xae690004, 0] == [Mips.Fields(0, 0, T1, 0x4842), Mips.Fields(0x2B, S3, T1, 4), 0]
  {
    Mips.OrHalf(0x3c08, High(addr));
    Mips.OrHalf(0x3508, Low(addr));
  }

  /** The word is readable memory outside the debug segment. */
  ghost predicate Readable(s: Mips.Cpu, addr: Word)
  {
    addr % 4 == 0 && addr < 0xC000_0000 && Mips.Phys(addr) in s.mem
  }

  /** `t` is `s` after some of the probe's instructions, apart from registers and output. */
  ghost predicate Served2(s: Mips.Cpu, t: Mips.Cpu, n: nat, room: nat)
    requires Mips.Valid(s)
  {
    Served(t, room) && Enters(s, t) && n <= |s.probe| && t.probe == s.probe[n..]
    && t.mem == s.mem && t.fifo == s.fifo
  }

  lemma PointsToFastData(s: Mips.Cpu, room: nat) returns (t: Mips.Cpu)
    requires Served(s, room + 1) && [Mips.Fields(0x0F, 0, S3, 0xFF20)] <= s.probe
    ensures Served2(s, t, 1, room) && t.out == s.out && t.reg == s.reg[S3 := Mips.FASTDATA]
  {
    hide Mips.TryStep, Mips.Fields, Enters;
    assert s.probe[0] == Mips.Fields(0x0F, 0, S3, 0xFF20);
    Serve(s, room, 0x0F, 0, S3, 0xFF20);
    t := Mips.TryStep(s).value;
    Walk([s, t]);
  }

  lemma FetchRest(addr: Word, probe: seq<Word>)
    requires FetchWord(addr)[1..] <= probe
    ensures |probe| >= 3 && probe[0] == Mips.Fields(0x0F, 0, T0, High(addr))
    ensures probe[1] == Mips.Fields(0x0D, T0, T0, Low(addr)) && probe[2] == Mips.Fields(0x23, T0, T1, 0)
    ensures addr == High(addr) as int * 0x1_0000 + Low(addr)
  {
    hide Mips.Fields;
    FetchFields(addr);
    assert forall j :: 0 <= j < 3 ==> probe[j] == FetchWord(addr)[1..][j];
  }

  /** The rest of the fetch, with s3 already set. */
  lemma FetchesMemory(s: Mips.Cpu, addr: Word, room: nat) returns (t: Mips.Cpu)
    requires Served(s, room + 3) && Readable(s, addr) && FetchWord(addr)[1..] <= s.probe
    ensures Served2(s, t, 3, room) && t.out == s.out
    ensures t.reg[S3] == s.reg[S3] && t.reg[T1] == s.mem[Mips.Phys(addr)]
  {
    hide Mips.TryStep, Mips.Fields, Enters, Mips.Phys;
    FetchRest(addr, s.probe);
    var b := BuildsWord(s, room + 1, T0, High(addr), Low(addr));
    t := LoadsWord(b, room, T1, T0, 0);
    EntersTransitive(s, b, t);
  }

  lemma SendsT1(s: Mips.Cpu, offset: nat, room: nat) returns (t: Mips.Cpu)
    requires Served(s, room + 2) && s.reg[S3] == Mips.FASTDATA && offset in {0, 4}
    requires s.probe == [Mips.Fields(0x2B, S3, T1, offset), 0]
    ensures Served2(s, t, 2, room) && t.reg == s.reg && t.out == s.out + [s.reg[T1]]
  {
    hide Mips.TryStep, Mips.Fields, Enters;
    Serve(s, room + 1, 0x2B, S3, T1, offset);
    var m := Mips.TryStep(s).value;
    NopServed(m);
    t := Mips.TryStep(m).value;
    Walk([s, m, t]);
  }

  lemma HalvesT1(s: Mips.Cpu, room: nat) returns (t: Mips.Cpu)
    requires Served(s, room + 1) && [Mips.Fields(0, 0, T1, 0x4842)] <= s.probe
    ensures Served2(s, t, 1, room) && t.out == s.out && t.reg == s.reg[T1 := s.reg[T1] / 2]
  {
    hide Mips.TryStep, Mips.Fields, Enters;
    assert s.probe[0] == Mips.Fields(0, 0, T1, 0x4842);
    Serve(s, room, 0, 0, T1, 0x4842);
    Mips.FieldsZero(0, 0, T1, 0x4842);
    t := Mips.TryStep(s).value;
    Walk([s, t]);
  }

  /** First sequence: the word itself goes out. */
  lemma FirstBatchRuns(s: Mips.Cpu, addr: Word, room: nat) returns (t: Mips.Cpu)
    requires Served(s, room + 6) && Readable(s, addr) && s.probe == FirstBatch(addr)
    ensures Served2(s, t, 6, room) && t.reg[S3] == Mips.FASTDATA
    ensures t.out == s.out + [s.mem[Mips.Phys(addr)]] && Mips.Blocked(t)
  {
    hide Mips.TryStep, Mips.Fields, Enters, Mips.Phys, FetchWord;
    FetchFields(addr);
    var a := PointsToFastData(s, room + 5);
    assert a.probe == FetchWord(addr)[1..] + [0xae690000, 0];
    var b := FetchesMemory(a, addr, room + 2);
    assert b.probe == [0xae690000, 0];
    t := SendsT1(b, 0, room);
    EntersTransitive(s, a, b);
    EntersTransitive(s, b, t);
    NothingServed(t, room);
  }

  lemma NothingServed(s: Mips.Cpu, room: nat)
    requires Served(s, room) && s.probe == []
    ensures Mips.Blocked(s)
  {
  }

  /** Second sequence from its second instruction: half the word goes out. */
  lemma SecondBatchRuns(s: Mips.Cpu, addr: Word, room: nat) returns (t: Mips.Cpu)
    requires Served(s, room + 6) && Readable(s, addr) && s.probe == SecondBatch(addr)[1..]
    requires s.reg[S3] == Mips.FASTDATA
    ensures Served2(s, t, 6, room)
    ensures t.out == s.out + [s.mem[Mips.Phys(addr)] / 2] && Mips.Blocked(t)
  {
    hide Mips.TryStep, Mips.Fields, Enters, Mips.Phys, FetchWord;
    FetchFields(addr);
    assert s.probe == FetchWord(addr)[1..] + [0x00094842, 0xae690004, 0];
    var a := FetchesMemory(s, addr, room + 3);
    assert a.probe == [0x00094842, 0xae690004, 0];
    var b := HalvesT1(a, room + 2);
    assert b.probe == [0xae690004, 0];
    t := SendsT1(b, 4, room);
    EntersTransitive(s, a, b);
    EntersTransitive(s, b, t);
    NothingServed(t, room);
  }

  lemma SecondBatchRunsWhole(s: Mips.Cpu, addr: Word, room: nat) returns (t: Mips.Cpu)
    requires Served(s, room + 7) && Readable(s, addr) && s.probe == SecondBatch(addr)
    ensures Served2(s, t, 7, room)
    ensures t.out == s.out + [s.mem[Mips.Phys(addr)] / 2] && Mips.Blocked(t)
  {
    hide Mips.TryStep, Mips.Fields, Enters, Mips.Phys, FetchWord;
    FetchFields(addr);
    var a := PointsToFastData(s, room + 6);
    assert a.probe == SecondBatch(addr)[1..];
    t := SecondBatchRuns(a, addr, room);
    EntersTransitive(s, a, t);
  }

  // ----- The whole operation ------------------------------------------------------------

  lemma Recombines(v: Word, b1: bool, b2: bool)
    ensures var word1 := (if b1 then 1 else 0) + 2 * (v % 0x8000_0000);
            var word2 := (if b2 then 1 else 0) + 2 * (v / 2 % 0x8000_0000);
            Recombine(word1, word2) == v
  {
    hide Or;
    var low := v % 0x8000_0000;
    TopAndLow(v);
    TopOfHalf(v / 2, b2);
    JoinTop(low);
    assert ((if b1 then 1 else 0) + 2 * low) / 2 == low;
  }

  lemma TopAndLow(v: Word)
    ensures v == (if v >= 0x8000_0000 then 0x8000_0000 else 0) + v % 0x8000_0000
    ensures v / 2 < 0x8000_0000 && (v / 2 >= 0x4000_0000 <==> v >= 0x8000_0000)
  {
  }

  lemma TopOfHalf(h: nat, b: bool)
    requires h < 0x8000_0000
    ensures (if b then 1 else 0) + 2 * (h % 0x8000_0000) >= 0x8000_0000 <==> h >= 0x4000_0000
  {
  }

  lemma JoinTop(low: nat)
    requires low < 0x8000_0000
    ensures Or(low, 0x8000_0000) == 0x8000_0000 + low && Or(low, 0) == low
  {
    Pow2Of31();
    OrDisjoint(1, 31, low);
    OrCommutes(low, 0x8000_0000);
    OrCommutes(low, 0);
  }

  /** Registers of the probe's side when the processor has run until it waits: it has
      taken all instructions and left what it stored. */
  function Settled(r: Registers, t: Mips.Cpu, prAcc: bool): Registers
  {
    Select(r.(probe := [], out := t.out, ready := prAcc), ETAP_FASTDATA)
  }

  /** The whole of a word read. When the word's top bit is set, the first access leaves the
      processor's store pending, and the first instruction of the second sequence only
      completes it; that instruction repeats one already done, so nothing is lost. The
      result is the word in memory, whatever the PrAcc bits read. */
  lemma ReadsMemoryWord(s: Mips.Cpu, r: Registers, addr: Word, prAcc1: bool, prAcc2: bool)
    returns (t1: Mips.Cpu, t2: Mips.Cpu, word1: Word, word2: Word)
    requires Served(s, 20) && Readable(s, addr) && s.probe == r.probe == [] && s.out == r.out == []
    ensures var r1 := SupplyAll(r, FirstBatch(addr));
            var s1 := s.(probe := r1.probe);
            && Mips.Valid(s1) && Enters(s1, t1) && Mips.Valid(t1) && Mips.Blocked(t1)
            && var q1 := Settled(r1, t1, prAcc1);
               && |Capture(q1)| == 33 && word1 == TruncatedRead(q1)
               && var r2 := SupplyAll(AfterTruncated(q1), SecondBatch(addr));
                  var s2 := t1.(probe := r2.probe, out := r2.out);
                  && Mips.Valid(s2) && Enters(s2, t2) && Mips.Valid(t2) && Mips.Blocked(t2)
                  && var q2 := Settled(r2, t2, prAcc2);
                     |Capture(q2)| == 33 && word2 == TruncatedRead(q2)
    ensures Recombine(word1, word2) == s.mem[Mips.Phys(addr)]
  {
    hide Mips.TryStep, Enters, Mips.Phys, FirstBatch, SecondBatch, Supply, Capture, Update, Mips.Blocked, Recombine;
    var v := s.mem[Mips.Phys(addr)];
    SuppliesAll(r, FirstBatch(addr));
    var r1 := SupplyAll(r, FirstBatch(addr));
    var s1 := s.(probe := r1.probe);
    assert r1.probe == FirstBatch(addr);
    t1 := FirstBatchRuns(s1, addr, 14);
    var q1 := Settled(r1, t1, prAcc1);
    assert q1.out == [v];
    TruncatedWord(q1, v);
    TruncatedUpdate(q1, v);
    word1 := TruncatedRead(q1);
    var a := AfterTruncated(q1);
    var r2 := SupplyAll(a, SecondBatch(addr));
    var pending := v >= 0x8000_0000 || !prAcc1;
    SecondSupply(a, addr, v, pending);
    var s2 := t1.(probe := r2.probe, out := r2.out);
    if pending {
      t2 := SecondBatchRuns(s2, addr, 8);
    } else {
      t2 := SecondBatchRunsWhole(s2, addr, 7);
    }
    var q2 := Settled(r2, t2, prAcc2);
    assert q2.out == [v / 2];
    TruncatedWord(q2, v / 2);
    word2 := TruncatedRead(q2);
    Recombines(v, prAcc1, prAcc2);
  }

  /** With a store still pending, the first instruction only completes it. */
  lemma SecondSupply(a: Registers, addr: Word, v: Word, pending: bool)
    requires a.probe == [] && a.out == (if pending then [v] else [])
    ensures var r2 := SupplyAll(a, SecondBatch(addr));
            && r2.out == []
            && r2.probe == (if pending then SecondBatch(addr)[1..] else SecondBatch(addr))
  {
    var batch := SecondBatch(addr);
    hide SecondBatch;
    if pending {
      assert |batch| == 7 by { BatchLength(addr); }
      SuppliesAll(SupplyReady(a, batch[0]), batch[1..]);
      assert [] + batch[1..] == batch[1..];
    } else {
      SuppliesAll(a, batch);
      assert [] + batch == batch;
    }
  }

  lemma BatchLength(addr: Word)
    ensures |SecondBatch(addr)| == 7
  {
  }
}
