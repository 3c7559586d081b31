/** The part of the program that knows the chip families: address translation, blocks and
    rows, configuration words. */
module Flash {
  import opened Words
  import opened Tap
  import opened Host
  import opened Session
  import opened Image
  import Crc
  import Executive
  import Installer
  import Mips

  /** Sizes in bytes except as named. */
  datatype Family = Family(mz: bool, bootKbytes: nat, devcfgOffset: nat, bytesPerRow: nat, peNwords: nat,
                           peVersion: Half)

  const MX1 := Family(false, 3, 0x0bf0, 128, 422, 0x0301)
  const MX3 := Family(false, 12, 0x2ff0, 512, 1044, 0x0201)
  const MZ := Family(true, 80, 0xffc0, 2048, 1052, 0x0502)
  const BOOTLOADER := Family(false, 80, 0, 1024, 0, 0)

  predicate Known(f: Family)
  {
    f == MX1 || f == MX3 || f == MZ || f == BOOTLOADER
  }

  function BootBytes(f: Family): nat
  {
    f.bootKbytes * 1024
  }

  /** The program's address translation is the processor's. */
  function VirtToPhys(addr: Word): Word
  {
    Mips.Phys(addr)
  }

  predicate AllOnes(bytes: seq<bv8>)
  {
    forall i :: 0 <= i < |bytes| ==> bytes[i] == 0xFF
  }

  /** How a run of the program ends. A call through an unset function pointer is the third
      way. */
  datatype Outcome = Done | Failed | NullCall

  class TargetChip {
    const session: Session
    const family: Family
    const flashBytes: nat

    constructor (session: Session, family: Family, flashBytes: nat)
      ensures this.session == session && this.family == family && this.flashBytes == flashBytes
    {
      this.session := session;
      this.family := family;
      this.flashBytes := flashBytes;
    }

    ghost function Repr(): set<object>
    {
      {session, session.usb} + session.Repr()
    }

    ghost predicate Ready()
      reads session, session.usb, session.usb.adapter.port
    {
      Known(family) && session.Ready()
    }

    ghost function Memory(): Memory
      reads session
    {
      session.memory
    }

    /** The executive never reports an error. */
    ghost function Sound(): bool
    {
      session.sound
    }

    ghost function Exec(): bool
      reads session.usb
    {
      session.usb.useExecutive
    }

    /** The chip's own erase: every bit of flash and boot memory is set. */
    method EraseChip()
      requires Ready()
      modifies session`memory, session`written, session`once
      ensures Ready() && Exec() == old(Exec())
      ensures Memory() == Erased(old(Memory()), flashBytes, BootBytes(family))
      ensures session.written == iset{} && session.once
    {
      session.memory := Erased(session.memory, flashBytes, BootBytes(family));
      session.written := iset{};
      session.once := true;
    }

    /** Load the executive if the family has one. */
    method UseExecutive(pe: seq<Word>, answer: Word) returns (ok: bool)
      requires Ready() && family.peNwords <= |pe|
      modifies Repr()
      ensures Ready()
      ensures Memory() == old(Memory()) && session.written == old(session.written) && session.once == old(session.once)
      ensures Exec() == (old(Exec()) || family.peNwords != 0)
      ensures ok <==> family.peNwords == 0 || answer == Executive.PE_EXEC_VERSION + family.peVersion
    {
      hide Tap.Valid, UsbPic.AtRest, Installer.Install, Installer.Download;
      ok := true;
      if family.peNwords != 0 {
        ok := Executive.LoadExecutive(session.usb, family.mz, pe, family.peNwords, family.peVersion, answer);
        session.usb.TargetAnswers([]);
      }
    }

    /** Whether a row has nothing to write. */
    method TestEmptyBlock(data: array<bv8>, from: nat, nwords: nat) returns (empty: bool)
      requires from + 4 * nwords <= data.Length
      ensures empty <==> AllOnes(data[from..from + 4 * nwords])
    {
      hide BytesWord, AllOnes;
      ghost var bytes := data[from..from + 4 * nwords];
      var i := 0;
      NoOnes();
      assert bytes[..0] == [];
      while i < nwords
        invariant 0 <= i <= nwords && AllOnes(bytes[..4 * i])
      {
        NextRow(bytes, data[..], from, nwords, i, 1);
        OnesWord(data[from + 4 * i..from + 4 * i + 4]);
        if BytesWord(data[from + 4 * i..from + 4 * i + 4]) != 0xFFFFFFFF {
          return false;
        }
        i := i + 1;
      }
      assert bytes[..4 * nwords] == bytes;
      empty := true;
    }

    /** Write a row if it has anything to write. */
    method ProgramUnlessEmpty(a: Word, data: array<bv8>, at: nat, nwords: Half) returns (ok: bool)
      requires Ready() && at + 4 * nwords <= data.Length && data !in Repr()
      modifies Repr() - {session.usb}
      ensures Ready() && Exec() == old(Exec())
      ensures ok ==> Burned(old(Memory()), Memory(), a, data[at..at + 4 * nwords])
      ensures session.written <= old(session.written) + Addresses(a, 4 * nwords)
      ensures old(session.once) && old(session.written) !! Addresses(a, 4 * nwords) ==> session.once
      ensures Honest(ok, Exec() || AllOnes(data[at..at + 4 * nwords]), Sound())
    {
      hide Tap.Valid, UsbPic.AtRest, Burned, AllOnes, Addresses, Elsewhere;
      var empty := TestEmptyBlock(data, at, nwords);
      ok := true;
      if empty {
        BurnOnes(Memory(), a, data[at..at + 4 * nwords]);
      } else {
        ok := session.ProgramRow(a, data, at, nwords);
      }
    }

    /** The rows of a block up to `done` words are dealt with. `w0` and `fresh` are the addresses
        programmed before, and whether the block's are none of them. */
    ghost predicate RowsWritten(was: Memory, w0: iset<int>, apart: bool, a: Word, bytes: seq<bv8>, done: nat)
      reads session, session.usb
    {
      && 4 * done <= |bytes| && Burned(was, Memory(), a, bytes[..4 * done])
      && session.written <= w0 + Addresses(a, 4 * done)
      && (apart ==> session.once)
      && (AllOnes(bytes[..4 * done]) || Exec())
    }

    /** The next row of a block. */
    method ProgramNextRow(a: Word, data: array<bv8>, from: nat, nwords: nat, done: nat, n: Half,
                          ghost was: Memory, ghost w0: iset<int>, ghost apart: bool)
      returns (ok: bool)
      requires Ready() && from + 4 * nwords <= data.Length && data !in Repr() && done + n <= nwords
      requires a + 4 * nwords <= 0x1_0000_0000 && n > 0
      requires RowsWritten(was, w0, apart, a, data[from..from + 4 * nwords], done)
      requires apart ==> w0 !! Addresses(a, 4 * nwords)
      modifies Repr() - {session.usb}
      ensures Ready() && Exec() == old(Exec())
      ensures ok ==> RowsWritten(was, w0, apart, a, data[from..from + 4 * nwords], done + n)
      ensures session.written <= w0 + Addresses(a, 4 * nwords) && (apart ==> session.once)
      ensures (ok ==> Exec() || AllOnes(data[from..from + 4 * nwords][..4 * (done + n)]))
      ensures Sound() && (Exec() || AllOnes(data[from..from + 4 * nwords])) ==> ok
    {
      hide Tap.Valid, UsbPic.AtRest, Session.Ready, Burned, AllOnes, Addresses, Known;
      ghost var bytes, at := data[from..from + 4 * nwords], from + 4 * done;
      ghost var before := Memory();
      NextRow(bytes, data[..], from, nwords, done, n);
      MoreAddresses(a, 4 * done, 4 * n, 4 * nwords);
      ok := ProgramUnlessEmpty(a + 4 * done, data, from + 4 * done, n);
      if ok {
        BurnMore(was, before, Memory(), a, bytes[..4 * done], data[at..at + 4 * n]);
      }
    }

    /** Write a block, row by row, without the rows that have nothing to write. */
    method ProgramBlock(addr: Word, nwords: nat, data: array<bv8>, from: nat) returns (ok: bool)
      requires Ready() && from + 4 * nwords <= data.Length && data !in Repr()
      requires nwords % (family.bytesPerRow / 4) == 0 && VirtToPhys(addr) + 4 * nwords <= 0x1_0000_0000
      modifies Repr() - {session.usb}
      ensures Ready() && Exec() == old(Exec())
      ensures ok ==> Burned(old(Memory()), Memory(), VirtToPhys(addr), data[from..from + 4 * nwords])
      ensures session.written <= old(session.written) + Addresses(VirtToPhys(addr), 4 * nwords)
      ensures old(session.once) && old(session.written) !! Addresses(VirtToPhys(addr), 4 * nwords) ==> session.once
      ensures Honest(ok, Exec() || AllOnes(data[from..from + 4 * nwords]), Sound())
    {
      hide Tap.Valid, UsbPic.AtRest, Session.Ready, Burned, AllOnes, Addresses;
      assert WholeRows(nwords, family.bytesPerRow / 4) && family.bytesPerRow / 4 in {32, 128, 256, 512};
      hide WholeRows, Known;
      var a := VirtToPhys(addr);
      ghost var was, w0, bytes := Memory(), session.written, data[from..from + 4 * nwords];
      ghost var apart := session.once && w0 !! Addresses(a, 4 * nwords);
      var wordsPerRow := family.bytesPerRow / 4;
      var done: nat, left: nat := 0, nwords;
      NothingWritten(was, a, bytes);
      while left > 0
        invariant left + done == nwords && WholeRows(left, wordsPerRow)
        invariant Ready() && Exec() == old(Exec()) && data[from..from + 4 * nwords] == bytes
        invariant RowsWritten(was, w0, apart, a, bytes, done)
        decreases left
      {
        AtLeastRow(left, wordsPerRow);
        var n := left;
        if n > wordsPerRow {
          n := wordsPerRow;
        }
        ok := ProgramNextRow(a, data, from, nwords, done, wordsPerRow, was, w0, apart);
        if !ok {
          return;
        }
        done := done + n;
        left := left - n;
      }
      assert bytes[..4 * nwords] == bytes;
      ok := true;
    }

    /** Compare a block with the image. */
    method VerifyBlock(addr: Word, nwords: nat, data: array<bv8>, from: nat) returns (ok: bool)
      requires Ready() && from + 4 * nwords <= data.Length && data !in Repr() && 4 * nwords < 0x1_0000_0000
      modifies Repr() - {session.usb}
      ensures Ready() && Exec() == old(Exec())
      ensures Memory() == old(Memory()) && session.written == old(session.written) && session.once == old(session.once)
      ensures Honest(ok, Exec() && SameChecksum(Memory(), VirtToPhys(addr), data[from..from + 4 * nwords]), Sound())
    {
      hide Tap.Valid, UsbPic.AtRest, Crc.CrcOf, Range;
      ok := session.VerifyData(VirtToPhys(addr), nwords, data, from);
    }

    method ProgramConfigWord(addr: Word, word: Word, ghost was: Memory, ghost a: Word, ghost bytes: seq<bv8>)
      returns (ok: bool)
      requires Ready() && Burned(was, Memory(), a, bytes) && addr == a + |bytes|
      modifies Repr() - {session.usb}
      ensures Ready() && Exec() == old(Exec()) && Honest(ok, Exec(), Sound())
      ensures ok ==> Burned(was, Memory(), a, bytes + Quad(word))
      ensures session.written <= old(session.written) + Addresses(addr, 4)
      ensures old(session.once) && old(session.written) !! Addresses(addr, 4) ==> session.once
    {
      hide Tap.Valid, UsbPic.AtRest, Burned, Quad, Addresses;
      ghost var before := Memory();
      ok := session.ProgramWord(addr, word);
      if ok {
        BurnMore(was, before, Memory(), a, bytes, Quad(word));
      }
    }

    /** Write the configuration words. */
    method ProgramDevcfg(devcfg0: Word, devcfg1: Word, devcfg2: Word, devcfg3: Word) returns (outcome: Outcome)
      requires Ready()
      modifies Repr() - {session.usb}
      ensures Ready() && Exec() == old(Exec())
      ensures family.devcfgOffset == 0 ==>
                outcome == Done && Memory() == old(Memory()) && session.written == old(session.written) &&
                    session.once == old(session.once)
      ensures family.devcfgOffset != 0 && family.peVersion >= 0x0500 ==> outcome == NullCall
      ensures family.devcfgOffset != 0 && family.peVersion < 0x0500 ==>
                outcome != NullCall && Honest(outcome == Done, Exec(), Sound()) &&
                session.written <= old(session.written) + Addresses(BOOTP_BASE + family.devcfgOffset, 16) &&
                (outcome == Done ==>
                   Burned(old(Memory()), Memory(), BOOTP_BASE + family.devcfgOffset,
                                   ConfigBytes(devcfg0, devcfg1, devcfg2, devcfg3))) &&
                (old(session.once) && old(session.written) !! Addresses(BOOTP_BASE + family.devcfgOffset, 16) ==>
                 session.once)
    {
      hide Tap.Valid, UsbPic.AtRest, Burned, Quad;
      if family.devcfgOffset == 0 {
        return Done;
      }
      var addr := BOOTP_BASE + family.devcfgOffset;
      if family.peVersion >= 0x0500 {
        return NullCall;
      }
      ghost var was := Memory();
      NothingBurned(was, addr);
      MoreAddresses(addr, 0, 4, 16);
      MoreAddresses(addr, 4, 4, 16);
      MoreAddresses(addr, 8, 4, 16);
      MoreAddresses(addr, 12, 4, 16);
      var ok := ProgramConfigWord(addr, devcfg3, was, addr, []);
      if !ok {
        return Failed;
      }
      ok := ProgramConfigWord(addr + 4, devcfg2, was, addr, [] + Quad(devcfg3));
      if !ok {
        return Failed;
      }
      ok := ProgramConfigWord(addr + 8, devcfg1, was, addr, [] + Quad(devcfg3) + Quad(devcfg2));
      if !ok {
        return Failed;
      }
      ok := ProgramConfigWord(addr + 12, devcfg0, was, addr, [] + Quad(devcfg3) + Quad(devcfg2) + Quad(devcfg1));
      if !ok {
        return Failed;
      }
      assert [] + Quad(devcfg3) + Quad(devcfg2) + Quad(devcfg1) + Quad(devcfg0)
          == ConfigBytes(devcfg0, devcfg1, devcfg2, devcfg3);
      outcome := Done;
    }
  }

  function Erased(m: Memory, flashBytes: nat, bootBytes: nat): Memory
  {
    (x: int) => if Within(x, FLASHP_BASE, flashBytes) || Within(x, BOOTP_BASE, bootBytes) then 0xFF else m(x)
  }

  /** The memory at an address and these bytes have the same checksum. */
  predicate SameChecksum(m: Memory, a: Word, bytes: seq<bv8>)
  {
    Crc.CrcOf(0xFFFF, Range(m, a, |bytes|)) == Crc.CrcOf(0xFFFF, bytes)
  }

  /** The configuration words in memory order. */
  function ConfigBytes(devcfg0: Word, devcfg1: Word, devcfg2: Word, devcfg3: Word): (b: seq<bv8>)
    ensures |b| == 16
  {
    Quad(devcfg3) + Quad(devcfg2) + Quad(devcfg1) + Quad(devcfg0)
  }

  lemma OnesWord(b: seq<bv8>)
    requires |b| == 4
    ensures BytesWord(b) == 0xFFFFFFFF <==> AllOnes(b)
  {
    hide LittleEndian;
    FullWord(b[0] as int, b[1] as int, b[2] as int, b[3] as int);
    OnesByte(b[0]);
    OnesByte(b[1]);
    OnesByte(b[2]);
    OnesByte(b[3]);
  }

  lemma FullWord(b0: Byte, b1: Byte, b2: Byte, b3: Byte)
    ensures LittleEndian(b0, b1, b2, b3) == 0xFFFFFFFF <==> b0 == 0xFF && b1 == 0xFF && b2 == 0xFF && b3 == 0xFF
  {
  }

  lemma NoOnes()
    ensures AllOnes([])
  {
  }

  lemma OnesByte(b: bv8)
    ensures b as int == 0xFF <==> b == 0xFF
    ensures 0 <= b as int <= 0xFF
  {
    assert (b as int) as bv8 == b;
  }

  lemma OnesSlice(b: seq<bv8>, lo: nat, hi: nat)
    requires AllOnes(b) && lo <= hi <= |b|
    ensures AllOnes(b[lo..hi])
  {
  }

  lemma NothingBurned(m: Memory, a: Word)
    ensures Burned(m, m, a, [])
  {
  }

  /** Programming all ones changes nothing. */
  lemma BurnOnes(m: Memory, a: Word, x: seq<bv8>)
    requires AllOnes(x)
    ensures Burned(m, m, a, x)
  {
    forall i | Within(i, a, |x|)
      ensures And(m(i), x[i - a]) == m(i)
    {
      AndOnes(m(i));
    }
  }

  lemma AndOnes(b: bv8)
    ensures And(b, 0xFF) == b && And(0xFF, b) == b
  {
  }

  /** Two adjacent programmings are one. */
  lemma BurnMore(m0: Memory, m1: Memory, m2: Memory, a: Word, x: seq<bv8>, y: seq<bv8>)
    requires a + |x| < 0x1_0000_0000
    requires Burned(m0, m1, a, x) && Burned(m1, m2, a + |x|, y)
    ensures Burned(m0, m2, a, x + y)
  {
    hide And;
  }

  lemma MoreAddresses(a: Word, n: nat, k: nat, all: nat)
    requires n + k <= all
    ensures Addresses(a, n) + Addresses(a + n, k) <= Addresses(a, n + k) <= Addresses(a, all)
    ensures Addresses(a, n) !! Addresses(a + n, k)
  {
  }

  lemma NothingWritten(m: Memory, a: Word, bytes: seq<bv8>)
    ensures 4 * 0 <= |bytes| && Burned(m, m, a, bytes[..4 * 0]) && AllOnes(bytes[..4 * 0])
    ensures Addresses(a, 4 * 0) == iset{}
  {
    assert bytes[..4 * 0] == [];
    NothingBurned(m, a);
  }

  predicate WholeRows(n: nat, row: nat)
  {
    row > 0 && n % row == 0
  }

  lemma AtLeastRow(left: nat, row: nat)
    requires row in {32, 128, 256, 512} && 0 < left && WholeRows(left, row)
    ensures row <= left && WholeRows(left - row, row)
  {
    if row == 32 {
      assert left >= 32 && (left - 32) % 32 == 0;
    } else if row == 128 {
      assert left >= 128 && (left - 128) % 128 == 0;
    } else if row == 256 {
      assert left >= 256 && (left - 256) % 256 == 0;
    } else {
      assert left >= 512 && (left - 512) % 512 == 0;
    }
  }

  /** The next row of a block. */
  lemma NextRow(bytes: seq<bv8>, data: seq<bv8>, from: nat, nwords: nat, done: nat, n: nat)
    requires from + 4 * nwords <= |data| && bytes == data[from..from + 4 * nwords] && done + n <= nwords
    ensures bytes[4 * done..4 * (done + n)] == data[from + 4 * done..from + 4 * done + 4 * n]
    ensures bytes[..4 * done] + bytes[4 * done..4 * (done + n)] == bytes[..4 * (done + n)]
    ensures AllOnes(bytes[..4 * (done + n)]) <==> AllOnes(bytes[..4 * done]) && AllOnes(bytes[4 * done..4 * (done + n)])
    ensures AllOnes(bytes) ==> AllOnes(bytes[4 * done..4 * (done + n)])
  {
    SubSlice(data, from, from + 4 * nwords, 4 * done, 4 * (done + n));
    OnesConcat(bytes[..4 * done], bytes[4 * done..4 * (done + n)]);
    if AllOnes(bytes) {
      OnesSlice(bytes, 4 * done, 4 * (done + n));
    }
  }

  lemma OnesConcat(x: seq<bv8>, y: seq<bv8>)
    ensures AllOnes(x + y) <==> AllOnes(x) && AllOnes(y)
  {
    if AllOnes(x + y) {
      forall i | 0 <= i < |x|
        ensures x[i] == 0xFF
      {
        assert (x + y)[i] == x[i];
      }
      forall i | 0 <= i < |y|
        ensures y[i] == 0xFF
      {
        assert (x + y)[|x| + i] == y[i];
      }
    }
  }
}
