/** The PICkit2 driver: a download in whole groups of ten words, and reading a word of
    memory through 32 of the 33 FASTDATA bits. */
module Pickit {
  import opened Words
  import Bits
  import opened Mips
  import opened Loader
  import opened Installer

  /** Number of words sent for an executive of `n`. */
  function Padded(n: nat): nat
  {
    10 * ((n + 9) / 10)
  }

  /** Everything up to the end of the last group of ten is there, and zero past the end. */
  ghost predicate ZeroPadded(pe: seq<Word>, n: nat)
  {
    Padded(n) <= |pe| && forall i :: n <= i < Padded(n) ==> pe[i] == 0
  }

  /** FASTDATA words of the whole download. The count is sent as two bytes. */
  function PickitDownload(pe: seq<Word>, n: nat): seq<Word>
    requires Padded(n) <= |pe|
  {
    [PE_BASE, n % 0x1_0000] + pe[..Padded(n)] + [0, END_MARK]
  }

  class PickitAdapter {
    /** FASTDATA words that the adapter's scripts have transferred. */
    var sent: seq<Word>

    constructor ()
      ensures sent == []
    {
      sent := [];
    }

    method XferFastData(w: Word)
      modifies this
      ensures sent == old(sent) + [w]
    {
      sent := sent + [w];
    }

    /** Ten words at a time. */
    method Download(pe: seq<Word>, nwords: nat)
      requires Padded(nwords) <= |pe|
      modifies this
      ensures sent == old(sent) + PickitDownload(pe, nwords)
    {
      XferFastData(PE_BASE);
      XferFastData(nwords % 0x1_0000);
      ghost var head := sent;
      var nloops := (nwords + 9) / 10;
      var i := 0;
      while i < nloops
        invariant 0 <= i <= nloops
        invariant sent == head + pe[..10 * i]
      {
        var j := 0;
        while j < 10
          invariant 0 <= j <= 10
          invariant sent == head + pe[..10 * i + j]
        {
          XferFastData(pe[10 * i + j]);
          assert pe[..10 * i + j + 1] == pe[..10 * i + j] + [pe[10 * i + j]];
          j := j + 1;
        }
        i := i + 1;
      }
      XferFastData(0x0000_0000);
      XferFastData(0xDEAD_0000);
      assert sent == old(sent) + PickitDownload(pe, nwords);
    }
  }

  // ----- What the loader makes of the surplus -----------------------------------

  function Zeros(n: nat): (z: seq<Word>)
    ensures |z| == n && forall i :: 0 <= i < n ==> z[i] == 0
  {
    seq(n, _ => 0)
  }

  /** Blocks without words. */
  function Empties(k: nat): (blocks: seq<Block>)
    ensures |blocks| == k && forall b <- blocks :: Loadable(b)
  {
    seq(k, _ => Block(0, []))
  }

  lemma {:induction false} EmptiesStream(k: nat)
    ensures BlocksStream(Empties(k)) == Zeros(2 * k)
    ensures forall mem: map<Word, Word> :: WriteBlocks(mem, Empties(k)) == mem
    decreases k
  {
    if k > 0 {
      assert Empties(k)[1..] == Empties(k - 1);
      EmptiesStream(k - 1);
    }
  }

  /** One block followed by empty ones. */
  lemma BlockAndEmpties(b: Block, k: nat)
    requires Loadable(b)
    ensures BlocksStream([b] + Empties(k)) == BlockStream(b) + Zeros(2 * k)
    ensures forall mem: map<Word, Word> :: WriteBlocks(mem, [b] + Empties(k)) == WriteWords(mem, b.address, b.words)
  {
    assert ([b] + Empties(k))[1..] == Empties(k);
    EmptiesStream(k);
  }

  /** The surplus words are zero. */
  lemma ZeroTail(pe: seq<Word>, n: nat)
    requires ZeroPadded(pe, n)
    ensures n <= Padded(n) && pe[..Padded(n)] == pe[..n] + Zeros(Padded(n) - n)
  {
    PaddedEven(n);
    var m := Padded(n);
    hide Padded;
    assert pe[..m] == pe[..n] + pe[n..m];
  }

  lemma PaddedEven(n: nat)
    ensures Padded(n) >= n && Padded(n) % 2 == 0
  {
    var q, r := (n + 9) / 10, (n + 9) % 10;
    assert n + 9 == 10 * q + r;
    Doubled(5 * q);
  }

  lemma Doubled(h: nat)
    ensures 2 * h % 2 == 0
  {
  }

  /** How many empty blocks the loader makes of the surplus. */
  lemma Surplus(n: nat) returns (k: nat)
    ensures Padded(n) >= n && Padded(n) + n % 2 == n + 2 * k
  {
    PaddedEven(n);
    var q, h := 5 * ((n + 9) / 10), n / 2;
    assert Padded(n) == 2 * q && n == 2 * h + n % 2;
    hide Padded;
    k := q - h;
  }

  lemma DownloadIs(pe: seq<Word>, n: nat)
    requires n < 0x1_0000 && Padded(n) <= |pe|
    ensures PickitDownload(pe, n) == [PE_BASE, n] + pe[..Padded(n)] + [0, END_MARK]
  {
  }

  lemma Regroups<T>(a: seq<T>, b: seq<T>, c: seq<T>, d: seq<T>)
    ensures a + (b + c) + d == a + b + c + d
  {
  }

  lemma OneMoreZero(k: nat)
    ensures Zeros(k) + [0] == Zeros(k + 1)
  {
  }

  /** The download as blocks and an end mark. */
  lemma EvenStream(pe: seq<Word>, n: nat, k: nat)
    requires n < 0x1_0000 && Padded(n) == n + 2 * k && ZeroPadded(pe, n) && Loadable(Block(PE_BASE, pe[..n]))
    ensures PickitDownload(pe, n) == BlocksStream([Block(PE_BASE, pe[..n])] + Empties(k)) + [0, END_MARK]
  {
    ZeroTail(pe, n);
    DownloadIs(pe, n);
    var block := Block(PE_BASE, pe[..n]);
    BlockAndEmpties(block, k);
    assert BlockStream(block) == [PE_BASE, n] + pe[..n];
    hide BlocksStream, Padded, ZeroPadded, Zeros, PickitDownload, BlockStream, Loadable, Empties;
    Regroups([PE_BASE, n], pe[..n], Zeros(2 * k), [0, END_MARK]);
  }

  /** The same with an odd count: one zero more, and half an end mark. */
  lemma OddStream(pe: seq<Word>, n: nat, k: nat)
    requires n < 0x1_0000 && Padded(n) + 1 == n + 2 * k && ZeroPadded(pe, n) && Loadable(Block(PE_BASE, pe[..n]))
    ensures PickitDownload(pe, n) == BlocksStream([Block(PE_BASE, pe[..n])] + Empties(k)) + [END_MARK]
  {
    ZeroTail(pe, n);
    DownloadIs(pe, n);
    var block := Block(PE_BASE, pe[..n]);
    BlockAndEmpties(block, k);
    OneMoreZero(2 * k - 1);
    assert BlockStream(block) == [PE_BASE, n] + pe[..n];
    hide BlocksStream, Padded, ZeroPadded, Zeros, PickitDownload, BlockStream, Loadable, Empties;
    Regroups([PE_BASE, n], pe[..n], Zeros(2 * k - 1), [0, END_MARK]);
    assert [PE_BASE, n] + pe[..n] + Zeros(2 * k - 1) + [0, END_MARK]
        == [PE_BASE, n] + pe[..n] + (Zeros(2 * k - 1) + [0]) + [END_MARK];
  }

  /** With an even count the surplus zeros are empty blocks, and the outcome is that of the
      exact download. */
  lemma EvenCountStarts(s: Cpu, pe: seq<Word>, n: nat, after: seq<Word>) returns (t: Cpu)
    requires Served(s, 100) && BMXDMSZ in s.mem && s.probe == Install(false)
    requires n < 0x1_0000 && n % 2 == 0 && ZeroPadded(pe, n)
    requires s.fifo == PickitDownload(pe, n) + after
    ensures Mips.Valid(t) && Enters(s, t) && t.pc == PE_BASE && t.npc == PE_BASE + 4
    ensures t.mem == WriteWords(Installed(s.mem, false), PE_BASE, pe[..n])
    ensures t.fifo == after && t.out == s.out && t.probe == []
  {
    hide TryStep, Plant, Install, Installed, LoaderIn, Enters, WriteWords, BlocksStream, WriteBlocks, PickitDownload,
         Padded;
    assert Install(false) + [] == Install(false);
    var m := Installs(s, false, []);
    var k := Surplus(n);
    var block := Block(PE_BASE, pe[..n]);
    StorableInRam(PE_BASE, n);
    EvenStream(pe, n, k);
    BlockAndEmpties(block, k);
    t := LoaderRuns(m, [block] + Empties(k), 0, after);
    EntersTransitive(s, m, t);
  }

  /** With an odd count the last surplus zero pairs up with the dummy address, the end mark
      is taken for an address, and the loader waits for a count that never comes. */
  lemma OddCountWaits(s: Cpu, pe: seq<Word>, n: nat) returns (t: Cpu)
    requires Served(s, 100) && BMXDMSZ in s.mem && s.probe == Install(false)
    requires n < 0x1_0000 && n % 2 == 1 && ZeroPadded(pe, n)
    requires s.fifo == PickitDownload(pe, n)
    ensures Mips.Valid(t) && Enters(s, t) && Blocked(t) && At(t, 4) && t.reg[A0] == END_MARK
  {
    hide TryStep, Plant, Install, Installed, LoaderIn, Enters, WriteWords, BlocksStream, WriteBlocks, PickitDownload,
         Padded;
    assert Install(false) + [] == Install(false);
    var m := Installs(s, false, []);
    var k := Surplus(n);
    var block := Block(PE_BASE, pe[..n]);
    StorableInRam(PE_BASE, n);
    OddStream(pe, n, k);
    BlockAndEmpties(block, k);
    var stream := BlocksStream([block] + Empties(k));
    var r := SetsUp(m);
    var e := LoadsBlocks(r, [block] + Empties(k));
    assert e.fifo == [END_MARK];
    t := WaitsForCount(e);
    EntersTransitive(s, m, r);
    EntersTransitive(s, r, e);
    EntersTransitive(s, e, t);
  }

  lemma WaitsForCount(s: Cpu) returns (t: Cpu)
    requires Ready(s) && |s.fifo| == 1
    ensures Mips.Valid(t) && Enters(s, t) && Blocked(t) && At(t, 4) && t.reg[A0] == s.fifo[0]
  {
    hide TryStep, LoaderIn, Phys, Enters;
    StepInLoader(s, 3);
    t := Execute(s, Assembly(3)).value;
    Walk([s, t]);
    StepInLoader(t, 4);
  }

  /** The PICkit download starts the executive exactly when the number of words is even. */
  lemma StartsIffEven(s: Cpu, pe: seq<Word>, n: nat)
    requires Served(s, 100) && BMXDMSZ in s.mem && s.probe == Install(false)
    requires n < 0x1_0000 && ZeroPadded(pe, n)
    requires s.fifo == PickitDownload(pe, n)
    ensures (exists k: nat :: Run(s, k).pc == PE_BASE) <==> n % 2 == 0
  {
    hide TryStep, Plant, Install, PickitDownload;
    if n % 2 == 0 {
      assert PickitDownload(pe, n) + [] == PickitDownload(pe, n);
      var t := EvenCountStarts(s, pe, n, []);
      LeadsReaches(s, t, PE_BASE);
      var k: nat :| Run(s, k) == t;
      assert Run(s, k).pc == PE_BASE;
    } else {
      var t := OddCountWaits(s, pe, n);
      forall k: nat
        ensures Run(s, k).pc != PE_BASE
      {
        BlockedNeverStops(s, t, PE_BASE, k);
      }
    }
  }
}
