/** Working with the programming executive through the adapter: the executive as a machine
    that answers requests about the target's memory, and the driver's request routines. */
module Session {
  import opened Words
  import opened Bits
  import opened Tap
  import opened Ejtag
  import opened Firmware
  import opened Usb
  import opened Host
  import Crc
  import Executive

  const PE_ROW_PROGRAM: Word := 0x0
  const PE_READ: Word := 0x1
  const PE_WORD_PROGRAM: Word := 0x3
  const PE_GET_CRC: Word := 0x8

  /** Bytes by physical address. */
  type Memory = int -> bv8

  function Wrap(a: int): Word
  {
    a % 0x1_0000_0000
  }

  /** Success means that the condition holds; and if nothing reports errors of its own, the
      condition means success. */
  predicate Honest(ok: bool, condition: bool, sound: bool)
  {
    (ok ==> condition) && (condition && sound ==> ok)
  }

  /** The bytes from an address on. */
  function Range(m: Memory, a: Word, n: nat): (r: seq<bv8>)
    ensures |r| == n && forall i :: 0 <= i < n ==> r[i] == m(Wrap(a + i))
  {
    seq(n, i => m(Wrap(a + i)))
  }

  function BytesWord(b: seq<bv8>): Word
    requires |b| == 4
  {
    LittleEndian(b[0] as int, b[1] as int, b[2] as int, b[3] as int)
  }

  function WordByte(w: Word, k: nat): bv8
    requires k < 4
  {
    ByteOf(w, k) as bv8
  }

  lemma WordByteOf(b: seq<bv8>, k: nat)
    requires |b| == 4 && k < 4
    ensures WordByte(BytesWord(b), k) == b[k]
  {
    BytesOf(b[0] as int, b[1] as int, b[2] as int, b[3] as int);
    var w := BytesWord(b);
    assert WordBytes(w) == [b[0] as int, b[1] as int, b[2] as int, b[3] as int];
    assert ByteOf(w, k) == WordBytes(w)[k] == b[k] as int;
  }

  /** The bytes of a word in memory. */
  function Quad(w: Word): (b: seq<bv8>)
    ensures |b| == 4
  {
    [WordByte(w, 0), WordByte(w, 1), WordByte(w, 2), WordByte(w, 3)]
  }

  lemma QuadOf(b: seq<bv8>)
    requires |b| == 4
    ensures Quad(BytesWord(b)) == b
  {
    hide WordByte, BytesWord;
    WordByteOf(b, 0);
    WordByteOf(b, 1);
    WordByteOf(b, 2);
    WordByteOf(b, 3);
  }

  /** Word `i` of a sequence of bytes, low byte first. */
  function WordFrom(bytes: seq<bv8>, i: nat): Word
    requires 4 * i + 4 <= |bytes|
  {
    BytesWord(bytes[4 * i..4 * i + 4])
  }

  function WordsOf(bytes: seq<bv8>): (r: seq<Word>)
    requires |bytes| % 4 == 0
    ensures |r| == |bytes| / 4
    ensures forall i: nat :: i < |r| ==> r[i] == WordFrom(bytes, i)
  {
    hide WordFrom;
    seq(|bytes| / 4, i requires 0 <= i < |bytes| / 4 => WordFrom(bytes, i))
  }

  function MemoryWords(m: Memory, a: Word, n: nat): (r: seq<Word>)
    ensures |r| == n
  {
    WordsOf(Range(m, a, 4 * n))
  }

  /** Byte `i` of a list of words. */
  function ByteIn(words: seq<Word>, i: nat): bv8
    requires i < 4 * |words|
  {
    WordByte(words[i / 4], i % 4)
  }

  lemma ByteInWordsOf(bytes: seq<bv8>, i: nat)
    requires |bytes| % 4 == 0 && i < |bytes|
    ensures ByteIn(WordsOf(bytes), i) == bytes[i]
  {
    hide WordByte, BytesWord;
    assert WordsOf(bytes)[i / 4] == WordFrom(bytes, i / 4);
    WordByteOf(bytes[4 * (i / 4)..4 * (i / 4) + 4], i % 4);
  }

  /** Flash can only clear bits. */
  function And(a: bv8, b: bv8): bv8
  {
    a & b
  }

  function Programmed(m: Memory, a: Word, words: seq<Word>): Memory
  {
    (x: int) => if Within(x, a, 4 * |words|) then And(m(x), ByteIn(words, x - a)) else m(x)
  }

  lemma QuarterOf(i: nat, k: nat)
    requires k < 4
    ensures (4 * i + k) / 4 == i && (4 * i + k) % 4 == k
  {
  }

  lemma ProgrammedByte(m: Memory, a: Word, words: seq<Word>, i: nat, k: nat)
    requires i < |words| && k < 4
    ensures Programmed(m, a, words)(a + (4 * i + k)) == And(m(a + (4 * i + k)), WordByte(words[i], k))
  {
    hide And, WordByte;
    QuarterOf(i, k);
  }

  /** Words go to memory low byte first: what a byte of memory is after programming. */
  lemma ProgrammedAt(m: Memory, a: Word, words: seq<Word>, i: nat)
    requires i < |words|
    ensures var now, w, x := Programmed(m, a, words), words[i], 4 * i;
            && now(a + (x + 0)) == And(m(a + (x + 0)), (w % 0x100) as bv8)
            && now(a + (x + 1)) == And(m(a + (x + 1)), (w / 0x100 % 0x100) as bv8)
            && now(a + (x + 2)) == And(m(a + (x + 2)), (w / 0x1_0000 % 0x100) as bv8)
            && now(a + (x + 3)) == And(m(a + (x + 3)), (w / 0x100_0000 % 0x100) as bv8)
  {
    hide And, Programmed;
    ProgrammedByte(m, a, words, i, 0);
    ProgrammedByte(m, a, words, i, 1);
    ProgrammedByte(m, a, words, i, 2);
    ProgrammedByte(m, a, words, i, 3);
  }

  lemma WordFromAt(bytes: seq<bv8>, i: nat)
    requires 4 * i + 4 <= |bytes|
    ensures WordFrom(bytes, i) == bytes[4 * i] as int + 0x100 * bytes[4 * i + 1] as int +
                                  0x1_0000 * bytes[4 * i + 2] as int + 0x100_0000 * bytes[4 * i + 3] as int
  {
    var b := bytes[4 * i..4 * i + 4];
    assert b[0] == bytes[4 * i] && b[1] == bytes[4 * i + 1] && b[2] == bytes[4 * i + 2] && b[3] == bytes[4 * i + 3];
  }

  /** And they come from memory the same way. */
  lemma MemoryWordAt(m: Memory, a: Word, n: nat, i: nat)
    requires i < n
    ensures MemoryWords(m, a, n)[i] == m(Wrap(a + 4 * i)) as int + 0x100 * m(Wrap(a + (4 * i + 1))) as int +
                                       0x1_0000 * m(Wrap(a + (4 * i + 2))) as int +
                                       0x100_0000 * m(Wrap(a + (4 * i + 3))) as int
  {
    hide Wrap, WordFrom;
    var bytes := Range(m, a, 4 * n);
    assert bytes[4 * i] == m(Wrap(a + 4 * i)) && bytes[4 * i + 1] == m(Wrap(a + (4 * i + 1)));
    assert bytes[4 * i + 2] == m(Wrap(a + (4 * i + 2))) && bytes[4 * i + 3] == m(Wrap(a + (4 * i + 3)));
    WordFromAt(bytes, i);
    hide Range;
  }

  /** What the executive does with a complete request. */
  datatype Service = Service(memory: Memory, reply: seq<Word>)

  function Serve(m: Memory, q: seq<Word>): Option<Service>
  {
    if |q| < 2 then None
    else
      var op, count := q[0] / 0x1_0000, q[0] % 0x1_0000;
      if op == PE_ROW_PROGRAM && |q| == 2 + count then Some(Service(Programmed(m, q[1], q[2..]), [op * 0x1_0000]))
      else if op == PE_READ && |q| == 2 then Some(Service(m, [op * 0x1_0000] + WordsOf(Range(m, q[1], 4 * count))))
      else if op == PE_WORD_PROGRAM && |q| == 3 then Some(Service(Programmed(m, q[1], q[2..]), [op * 0x1_0000]))
      else if op == PE_GET_CRC && |q| == 3 then
        Some(Service(m, [op * 0x1_0000, Crc.Value(Crc.CrcOf(0xFFFF, Range(m, q[1], q[2])))]))
      else None
  }

  /** The new memory is the old one with some bytes programmed at an address. */
  ghost predicate Burned(was: Memory, now: Memory, a: Word, bytes: seq<bv8>)
  {
    forall x: int :: now(x) == if Within(x, a, |bytes|) then And(was(x), bytes[x - a]) else was(x)
  }

  lemma ProgrammedBurns(m: Memory, a: Word, bytes: seq<bv8>)
    requires |bytes| % 4 == 0
    ensures Burned(m, Programmed(m, a, WordsOf(bytes)), a, bytes)
  {
    hide And, ByteIn;
    forall x: int | Within(x, a, |bytes|)
      ensures ByteIn(WordsOf(bytes), x - a) == bytes[x - a]
    {
      ByteInWordsOf(bytes, x - a);
    }
  }

  ghost function Addresses(a: int, n: nat): iset<int>
  {
    iset x: int | Within(x, a, n)
  }

  class Session {
    const usb: UsbPic
    /** The executive never reports an error. */
    const sound: bool
    var memory: Memory
    /** Addresses programmed since the last erase, and whether none of them was twice. */
    ghost var written: iset<int>
    ghost var once: bool

    /** Between two requests. */
    ghost predicate Ready()
      reads this, usb, usb.adapter.port
    {
      && usb.AtRest() && usb.Regs().ready && usb.Regs().out == [] && usb.Regs().fifo == []
    }

    ghost function Repr(): set<object>
    {
      usb.Repr()
    }

    constructor (usb: UsbPic, sound: bool, memory: Memory)
      requires usb.AtRest() && usb.Regs().ready && usb.Regs().out == [] && usb.Regs().fifo == []
      ensures Ready() && this.usb == usb && this.sound == sound && this.memory == memory
    {
      this.usb := usb;
      this.sound := sound;
      this.memory := memory;
      this.written := iset{};
      this.once := true;
    }

    /** Not the host's doing: the executive serves the request it has been sent, or reports
        some error; memory that it was to program may then contain anything. */
    method ExecutiveServes() returns (ghost done: bool)
      requires usb.AtRest() && Serve(memory, usb.Regs().fifo).Some?
      modifies this`memory, this`written, this`once, Repr()
      ensures usb.AtRest() && usb.Mode() == old(usb.Mode()) && (sound ==> done)
      ensures usb.Regs() == old(usb.Regs()).(fifo := [], out := usb.Regs().out)
      ensures var service := Serve(old(memory), old(usb.Regs().fifo)).value;
              if done then memory == service.memory && usb.Regs().out == service.reply
              else |usb.Regs().out| == 1 && (service.reply != [] ==> usb.Regs().out[0] != service.reply[0])
      ensures Elsewhere(old(memory), memory, Target(old(usb.Regs().fifo)))
      ensures !Programs(old(usb.Regs().fifo)) ==> memory == old(memory)
      ensures written == old(written) + Target(old(usb.Regs().fifo))
      ensures once == (old(once) && old(written) !! Target(old(usb.Regs().fifo)))
    {
      hide Tap.Valid, Serve, Target, Programs, Damaged, Elsewhere, ErrorReply;
      var q := usb.adapter.port.dev.regs.fifo;
      ServesElsewhere(memory, q);
      var service := Serve(memory, q).value;
      once := once && written !! Target(q);
      written := written + Target(q);
      var fails: bool := *;
      var status: Half := *;
      var damage: Memory := *;
      done := sound || !fails || status == 0;
      if sound || !fails || status == 0 {
        memory := service.memory;
        usb.TargetAnswers(service.reply);
      } else {
        ErrorDiffers(q[0], status);
        DamagedElsewhere(memory, damage, q);
        memory := Damaged(memory, damage, q);
        usb.TargetAnswers([ErrorReply(q[0], status)]);
      }
    }

    /** FASTDATA words from the host's memory, four bytes at a time. */
    method SendBytes(data: array<bv8>, from: nat, n: nat)
      requires usb.AtRest() && usb.Regs().ready && usb.Regs().out == [] && usb.Regs().ir == ToBits(ETAP_FASTDATA, 5)
      requires from + 4 * n <= data.Length && data !in Repr()
      modifies Repr()
      ensures usb.AtRest() && usb.Mode() == old(usb.Mode())
      ensures usb.Regs().ir == old(usb.Regs().ir)
      ensures Executive.TrafficOf(usb.Regs())
           == Executive.TrafficOf(old(usb.Regs())).(fifo := old(usb.Regs().fifo) + WordsOf(data[from..from + 4 * n]))
    {
      hide Tap.Valid, ToBits, UsbPic.AtRest, BytesWord;
      ghost var t := Executive.TrafficOf(usb.Regs());
      ghost var block := data[from..from + 4 * n];
      ghost var words := WordsOf(block);
      var i := 0;
      while i < n
        invariant 0 <= i <= n
        invariant usb.AtRest() && usb.Mode() == old(usb.Mode())
        invariant usb.Regs().ir == ToBits(ETAP_FASTDATA, 5)
        invariant Executive.TrafficOf(usb.Regs()) == t.(fifo := t.fifo + words[..i])
      {
        var at := from + 4 * i;
        var bytes := data[at..at + 4];
        Slice(data[..], from, n, i);
        assert words[i] == WordFrom(block, i);
        var ok := Executive.Send(usb, BytesWord(bytes));
        assert t.fifo + words[..i] + [words[i]] == t.fifo + words[..i + 1];
        i := i + 1;
      }
      assert words[..n] == words;
    }

    method RequestRow(addr: Word, data: array<bv8>, from: nat, wordsPerRow: Half)
      requires Ready() && from + 4 * wordsPerRow <= data.Length && data !in Repr()
      modifies Repr()
      ensures usb.AtRest() && usb.Mode() == old(usb.Mode())
      ensures usb.Regs().ready && usb.Regs().out == []
      ensures usb.Regs().fifo
           == [PE_ROW_PROGRAM * 0x1_0000 + wordsPerRow, addr] + WordsOf(data[from..from + 4 * wordsPerRow])
    {
      hide Tap.Valid, ToBits, UsbPic.AtRest, WordsOf;
      usb.Choose(0x0E);
      var ok := Executive.Send(usb, PE_ROW_PROGRAM * 0x1_0000 + wordsPerRow);
      ok := Executive.Send(usb, addr);
      SendBytes(data, from, wordsPerRow);
    }

    /** Write a row of flash. */
    method ProgramRow(addr: Word, data: array<bv8>, from: nat, wordsPerRow: Half) returns (ok: bool)
      requires Ready() && from + 4 * wordsPerRow <= data.Length && data !in Repr()
      modifies this`memory, this`written, this`once, Repr()
      ensures Ready() && usb.Mode() == old(usb.Mode())
      ensures usb.useExecutive == old(usb.useExecutive)
      ensures Honest(ok, usb.useExecutive, sound)
      ensures ok ==> Burned(old(memory), memory, addr, data[from..from + 4 * wordsPerRow])
      ensures Elsewhere(old(memory), memory, Addresses(addr, 4 * wordsPerRow))
      ensures if usb.useExecutive
              then written == old(written) + Addresses(addr, 4 * wordsPerRow) &&
                   once == (old(once) && old(written) !! Addresses(addr, 4 * wordsPerRow))
              else memory == old(memory) && written == old(written) && once == old(once)
    {
      hide Tap.Valid, ToBits, UsbPic.AtRest, WordsOf, Serve, Target, Burned, Programmed, Addresses, Elsewhere, Programs;
      if !usb.useExecutive {
        NothingElsewhere(memory, Addresses(addr, 4 * wordsPerRow));
        return false;
      }
      ghost var bytes := data[from..from + 4 * wordsPerRow];
      RequestRow(addr, data, from, wordsPerRow);
      RowServed(memory, wordsPerRow, addr, bytes);
      ghost var done := ExecutiveServes();
      var response := usb.GetPeResponse();
      ok := response == Some(PE_ROW_PROGRAM * 0x1_0000);
    }

    /** Write one word of flash. */
    method ProgramWord(addr: Word, word: Word) returns (ok: bool)
      requires Ready()
      modifies this`memory, this`written, this`once, Repr()
      ensures Ready() && usb.Mode() == old(usb.Mode())
      ensures usb.useExecutive == old(usb.useExecutive)
      ensures Honest(ok, usb.useExecutive, sound)
      ensures ok ==> Burned(old(memory), memory, addr, Quad(word))
      ensures Elsewhere(old(memory), memory, Addresses(addr, 4))
      ensures if usb.useExecutive
              then written == old(written) + Addresses(addr, 4) &&
                   once == (old(once) && old(written) !! Addresses(addr, 4))
              else memory == old(memory) && written == old(written) && once == old(once)
    {
      hide Tap.Valid, ToBits, UsbPic.AtRest, WordsOf, Serve, Target, Burned, Programmed, Addresses, Elsewhere, Programs;
      if !usb.useExecutive {
        NothingElsewhere(memory, Addresses(addr, 4));
        return false;
      }
      usb.Choose(0x0E);
      ok := Executive.Send(usb, PE_WORD_PROGRAM * 0x1_0000 + 2);
      ok := Executive.Send(usb, addr);
      ok := Executive.Send(usb, word);
      assert usb.Regs().fifo == [PE_WORD_PROGRAM * 0x1_0000 + 2, addr, word];
      WordServed(memory, addr, word);
      ghost var done := ExecutiveServes();
      var response := usb.GetPeResponse();
      ok := response == Some(PE_WORD_PROGRAM * 0x1_0000);
    }

    /** Ask for the checksum of a block of the target's memory. */
    method RequestCrc(addr: Word, nbytes: Word) returns (flash: Option<Word>)
      requires Ready()
      modifies this`memory, this`written, this`once, Repr()
      ensures Ready() && usb.Mode() == old(usb.Mode()) && usb.useExecutive == old(usb.useExecutive)
      ensures memory == old(memory) && written == old(written) && once == old(once)
      ensures flash == None || flash == Some(Crc.Value(Crc.CrcOf(0xFFFF, Range(memory, addr, nbytes))))
      ensures sound ==> flash.Some?
    {
      hide Tap.Valid, ToBits, UsbPic.AtRest, Serve, Target, Elsewhere, Crc.CrcOf, Range, Crc.Value;
      usb.Choose(0x0E);
      var ok := Executive.Send(usb, PE_GET_CRC * 0x1_0000);
      ok := Executive.Send(usb, addr);
      ok := Executive.Send(usb, nbytes);
      assert usb.Regs().fifo == [PE_GET_CRC * 0x1_0000, addr, nbytes];
      CrcServed(memory, addr, nbytes);
      ghost var done := ExecutiveServes();
      var response := usb.GetPeResponse();
      if response != Some(PE_GET_CRC * 0x1_0000) {
        return None;
      }
      flash := usb.GetPeResponse();
    }

    /** Compare a block of the target's memory with the host's by checksum. */
    method VerifyData(addr: Word, nwords: nat, data: array<bv8>, from: nat) returns (ok: bool)
      requires Ready() && from + 4 * nwords <= data.Length && data !in Repr() && 4 * nwords < 0x1_0000_0000
      modifies this`memory, this`written, this`once, Repr()
      ensures Ready() && usb.Mode() == old(usb.Mode()) && usb.useExecutive == old(usb.useExecutive)
      ensures memory == old(memory) && written == old(written) && once == old(once)
      ensures var there, here := Range(memory, addr, 4 * nwords), data[from..from + 4 * nwords];
              var same := Crc.CrcOf(0xFFFF, there) == Crc.CrcOf(0xFFFF, here);
              Honest(ok, usb.useExecutive && same, sound)
    {
      hide Tap.Valid, UsbPic.AtRest, Crc.CrcOf, Range, Crc.Value;
      if !usb.useExecutive {
        return false;
      }
      ghost var crc := Crc.CrcOf(0xFFFF, Range(memory, addr, 4 * nwords));
      var flash := RequestCrc(addr, nwords * 4);
      var dataCrc := Crc.CalculateCrc(0xFFFF, data, from, nwords * 4);
      Crc.ValueInjective(crc, dataCrc);
      ok := flash.Some? && flash.value % 0x1_0000 == Crc.Value(dataCrc);
    }

    /** Ask for thirty-two words. */
    method RequestRead(addr: Word) returns (ok: bool)
      requires Ready()
      modifies this`memory, this`written, this`once, Repr()
      ensures usb.AtRest() && usb.Mode() == old(usb.Mode()) && usb.useExecutive == old(usb.useExecutive)
      ensures memory == old(memory) && written == old(written) && once == old(once)
      ensures (sound ==> ok) && usb.Regs().ready && usb.Regs().fifo == []
      ensures usb.Regs().out == if ok then MemoryWords(memory, addr, 32) else []
    {
      hide Tap.Valid, ToBits, UsbPic.AtRest, Serve, Target, Elsewhere, MemoryWords;
      usb.Choose(0x0E);
      ok := Executive.Send(usb, PE_READ * 0x1_0000 + 32);
      ok := Executive.Send(usb, addr);
      assert usb.Regs().fifo == [PE_READ * 0x1_0000 + 32, addr];
      ReadServed(memory, addr);
      ghost var done := ExecutiveServes();
      var response := usb.GetPeResponse();
      ok := response == Some(PE_READ * 0x1_0000);
    }

    /** Collect thirty-two words, eight at a time. */
    method CollectGroup(data: array<Word>, from: nat)
      requires usb.AtRest() && usb.Regs().ready && |usb.Regs().out| == 32
      requires from + 32 <= data.Length && data !in Repr()
      modifies Repr(), data
      ensures usb.AtRest() && usb.Mode() == old(usb.Mode()) && usb.Regs().ready
      ensures usb.Regs().fifo == old(usb.Regs().fifo) && usb.Regs().out == []
      ensures data[..] == Put(old(data[..]), from, old(usb.Regs().out))
    {
      hide Tap.Valid, UsbPic.AtRest, Put;
      ghost var words, was := usb.Regs().out, data[..];
      PutNothing(was, from);
      assert words[..8 * 0] == [];
      var i := 0;
      while i < 32 / 8
        invariant 0 <= i <= 4
        invariant usb.AtRest() && usb.Mode() == old(usb.Mode()) && usb.Regs().ready
        invariant usb.Regs().fifo == old(usb.Regs().fifo) && usb.Regs().out == words[8 * i..]
        invariant data[..] == Put(was, from, words[..8 * i])
      {
        usb.GetPeResponses(8, data, from + 8 * i);
        NextEight(was, words, from, i);
        i := i + 1;
      }
      assert words[..32] == words;
    }

    method ReadGroup(addr: Word, data: array<Word>, from: nat) returns (ok: bool)
      requires Ready() && from + 32 <= data.Length && data !in Repr()
      modifies this`memory, this`written, this`once, Repr(), data
      ensures Ready() && usb.Mode() == old(usb.Mode()) && usb.useExecutive == old(usb.useExecutive)
      ensures memory == old(memory) && written == old(written) && once == old(once)
      ensures (sound ==> ok) && (ok ==> data[..] == Put(old(data[..]), from, MemoryWords(memory, addr, 32)))
    {
      hide Tap.Valid, UsbPic.AtRest, MemoryWords, Put;
      ok := RequestRead(addr);
      if !ok {
        return;
      }
      CollectGroup(data, from);
    }

    /** Read a block of the target's memory, in whole groups of 32 words: the caller's buffer
        must have room for them. */
    method ReadData(addr: Word, nwords: nat, data: array<Word>, from: nat) returns (ok: bool)
      requires Ready() && usb.useExecutive && from + Grouped(nwords) <= data.Length && data !in Repr()
      modifies this`memory, this`written, this`once, Repr(), data
      ensures Ready() && usb.Mode() == old(usb.Mode()) && usb.useExecutive == old(usb.useExecutive)
      ensures memory == old(memory) && written == old(written) && once == old(once)
      ensures sound ==> ok
      ensures ok ==> data[..] == Put(old(data[..]), from, MemoryWords(memory, addr, Grouped(nwords)))
    {
      hide Tap.Valid, UsbPic.AtRest, MemoryWords, Wrap, Put;
      WrapWord(addr);
      var a: int := addr;
      var wordsRead := 0;
      ok := true;
      NoWords(memory, addr);
      ghost var was := data[..];
      PutNothing(was, from);
      ghost var k, groups := 0, (nwords + 31) / 32;
      while wordsRead < nwords
        invariant 0 <= k <= groups && wordsRead == 32 * k && a == Wrap(addr + 4 * wordsRead)
        invariant Ready() && usb.Mode() == old(usb.Mode()) && usb.useExecutive == old(usb.useExecutive)
        invariant memory == old(memory) && written == old(written) && once == old(once) && ok
        invariant data[..] == Put(was, from, MemoryWords(memory, addr, wordsRead))
        decreases nwords + 32 - wordsRead
      {
        ok := ReadGroup(a, data, from + wordsRead);
        if !ok {
          return;
        }
        NextGroup(memory, addr, wordsRead, was, from);
        a := Wrap(a + 32 * 4);
        wordsRead := wordsRead + 32;
        k := k + 1;
      }
    }
  }

  /** A number of words rounded up to whole groups. */
  function Grouped(nwords: nat): (n: nat)
    ensures n >= nwords
  {
    32 * ((nwords + 31) / 32)
  }

  /** Words written over part of a buffer. */
  function Put<T>(was: seq<T>, from: nat, words: seq<T>): (now: seq<T>)
    requires from + |words| <= |was|
    ensures |now| == |was|
  {
    was[..from] + words + was[from + |words|..]
  }

  lemma PutMore<T>(was: seq<T>, from: nat, x: seq<T>, y: seq<T>)
    requires from + |x| + |y| <= |was|
    ensures Put(Put(was, from, x), from + |x|, y) == Put(was, from, x + y)
  {
  }

  lemma PutNothing<T>(was: seq<T>, from: nat)
    requires from <= |was|
    ensures Put(was, from, []) == was
  {
  }

  lemma NextEight<T>(was: seq<T>, words: seq<T>, from: nat, i: nat)
    requires |words| == 32 && i < 4 && from + 32 <= |was|
    ensures words[8 * i..][8..] == words[8 * (i + 1)..]
    ensures var now := Put(was, from, words[..8 * i]);
            now[..from + 8 * i] + words[8 * i..][..8] + now[from + 8 * i + 8..] == Put(was, from, words[..8 * (i + 1)])
  {
    assert words[8 * i..][..8] == words[8 * i..8 * (i + 1)];
    assert words[..8 * i] + words[8 * i..8 * (i + 1)] == words[..8 * (i + 1)];
    PutMore(was, from, words[..8 * i], words[8 * i..8 * (i + 1)]);
  }

  lemma Slice<T>(s: seq<T>, from: nat, n: nat, i: nat)
    requires from + 4 * n <= |s| && i < n
    ensures s[from..from + 4 * n][4 * i..4 * i + 4] == s[from + 4 * i..from + 4 * i + 4]
  {
    SubSlice(s, from, from + 4 * n, 4 * i, 4 * i + 4);
  }

  lemma SubSlice<T>(s: seq<T>, lo: nat, hi: nat, a: nat, b: nat)
    requires lo <= hi <= |s| && a <= b <= hi - lo
    ensures s[lo..hi][a..b] == s[lo + a..lo + b]
  {
    var w := s[lo..hi];
    var x, y := w[a..b], s[lo + a..lo + b];
    forall k | 0 <= k < b - a
      ensures x[k] == y[k]
    {
      assert x[k] == w[a + k];
      assert w[a + k] == s[lo + (a + k)] && lo + (a + k) == lo + a + k;
      assert y[k] == s[lo + a + k];
    }
  }

  lemma NextGroup(m: Memory, addr: Word, n: nat, was: seq<Word>, from: nat)
    requires from + n + 32 <= |was|
    ensures var a := Wrap(addr + 4 * n);
            && Put(Put(was, from, MemoryWords(m, addr, n)), from + n, MemoryWords(m, a, 32))
               == Put(was, from, MemoryWords(m, addr, n + 32))
            && Wrap(a + 128) == Wrap(addr + 4 * (n + 32))
  {
    hide MemoryWords, Put, Wrap;
    assert addr + (4 * n + 128) == addr + 4 * (n + 32);
    MoreWords(m, addr, n, 32);
    assert 4 * 32 == 128;
    PutMore(was, from, MemoryWords(m, addr, n), MemoryWords(m, Wrap(addr + 4 * n), 32));
    WrapAdd(addr, 4 * n, 32 * 4);
  }

  lemma NoWords(m: Memory, a: Word)
    ensures MemoryWords(m, a, 0) == []
  {
  }

  /** Consecutive ranges. */
  lemma MoreWords(m: Memory, a: Word, n: nat, k: nat)
    ensures MemoryWords(m, a, n + k) == MemoryWords(m, a, n) + MemoryWords(m, Wrap(a + 4 * n), k)
  {
    hide BytesWord, WordsOf, Range, Wrap;
    assert 4 * (n + k) == 4 * n + 4 * k;
    MoreRange(m, a, 4 * n, 4 * k);
    WordsOfConcat(Range(m, a, 4 * n), Range(m, Wrap(a + 4 * n), 4 * k));
  }

  lemma MoreRange(m: Memory, a: Word, n: nat, k: nat)
    ensures Range(m, a, n + k) == Range(m, a, n) + Range(m, Wrap(a + n), k)
  {
    var whole, rest := Range(m, a, n + k), Range(m, Wrap(a + n), k);
    forall j | n <= j < n + k
      ensures whole[j] == rest[j - n]
    {
      WrapAdd(a, n, j - n);
    }
  }

  lemma WrapWord(a: Word)
    ensures Wrap(a + 4 * 0) == a
  {
  }

  lemma WrapAdd(a: int, n: int, k: int)
    ensures Wrap(Wrap(a + n) + k) == Wrap(a + (n + k))
  {
  }

  lemma SliceLeft<T>(x: seq<T>, y: seq<T>, a: nat, b: nat)
    requires a <= b <= |x|
    ensures (x + y)[a..b] == x[a..b]
  {
  }

  lemma SliceRight<T>(x: seq<T>, y: seq<T>, a: nat, b: nat)
    requires a <= b <= |y|
    ensures (x + y)[|x| + a..|x| + b] == y[a..b]
  {
    var u, v := (x + y)[|x| + a..|x| + b], y[a..b];
    forall k | 0 <= k < b - a
      ensures u[k] == v[k]
    {
      assert u[k] == (x + y)[|x| + (a + k)] == y[a + k];
    }
  }

  lemma WordsOfConcat(x: seq<bv8>, y: seq<bv8>)
    requires |x| % 4 == 0 && |y| % 4 == 0
    ensures WordsOf(x + y) == WordsOf(x) + WordsOf(y)
  {
    hide BytesWord;
    forall i: nat | i < |x + y| / 4
      ensures WordsOf(x + y)[i] == (WordsOf(x) + WordsOf(y))[i]
    {
      if i < |x| / 4 {
        SliceLeft(x, y, 4 * i, 4 * i + 4);
        assert WordsOf(x)[i] == WordFrom(x, i);
      } else {
        var j := i - |x| / 4;
        assert 4 * i == |x| + 4 * j;
        SliceRight(x, y, 4 * j, 4 * j + 4);
        assert WordsOf(y)[j] == WordFrom(y, j);
      }
      assert WordsOf(x + y)[i] == WordFrom(x + y, i);
    }
  }

  lemma ReadServed(m: Memory, a: Word)
    ensures var q := [PE_READ * 0x1_0000 + 32, a];
            && Serve(m, q) == Some(Service(m, [PE_READ * 0x1_0000] + MemoryWords(m, a, 32)))
            && Target(q) == iset{}
  {
    hide WordsOf, Range;
  }

  /** A request to program. */
  predicate Programs(q: seq<Word>)
  {
    |q| >= 2 && q[0] / 0x1_0000 in {PE_ROW_PROGRAM, PE_WORD_PROGRAM}
  }

  /** Nothing but some addresses has changed. */
  ghost predicate Elsewhere(was: Memory, now: Memory, addresses: iset<int>)
  {
    forall x: int :: x !in addresses ==> now(x) == was(x)
  }

  lemma NothingElsewhere(m: Memory, addresses: iset<int>)
    ensures Elsewhere(m, m, addresses)
  {
  }

  /** What a request that fails may leave. */
  function Damaged(m: Memory, damage: Memory, q: seq<Word>): Memory
  {
    if Programs(q) then (x: int) => if Within(x, q[1], 4 * |q[2..]|) then damage(x) else m(x) else m
  }

  lemma DamagedElsewhere(m: Memory, damage: Memory, q: seq<Word>)
    ensures Elsewhere(m, Damaged(m, damage, q), Target(q))
    ensures !Programs(q) ==> Damaged(m, damage, q) == m
  {
  }

  /** The reply that reports an error. */
  function ErrorReply(command: Word, status: Half): Word
  {
    command - command % 0x1_0000 + status
  }

  lemma ErrorDiffers(command: Word, status: Half)
    requires status != 0
    ensures ErrorReply(command, status) != command / 0x1_0000 * 0x1_0000
  {
  }

  lemma ServesElsewhere(m: Memory, q: seq<Word>)
    requires Serve(m, q).Some?
    ensures |q| >= 2 && Elsewhere(m, Serve(m, q).value.memory, Target(q))
    ensures !Programs(q) ==> Serve(m, q).value.memory == m
    ensures Serve(m, q).value.reply != [] && Serve(m, q).value.reply[0] == q[0] / 0x1_0000 * 0x1_0000
  {
    hide And, ByteIn, Range, WordsOf, Crc.CrcOf;
  }

  /** Addresses a request programs. */
  ghost function Target(q: seq<Word>): iset<int>
  {
    if Programs(q) then Addresses(q[1], 4 * |q[2..]|) else iset{}
  }

  lemma RowServed(m: Memory, n: Half, a: Word, bytes: seq<bv8>)
    requires |bytes| == 4 * n
    ensures var q := [PE_ROW_PROGRAM * 0x1_0000 + n, a] + WordsOf(bytes);
            && Serve(m, q).Some? && Serve(m, q).value.reply == [PE_ROW_PROGRAM * 0x1_0000]
            && Burned(m, Serve(m, q).value.memory, a, bytes) && Target(q) == Addresses(a, 4 * n)
  {
    hide WordsOf, Burned, Programmed, Addresses, Crc.CrcOf, Range;
    var q := [PE_ROW_PROGRAM * 0x1_0000 + n, a] + WordsOf(bytes);
    assert q[0] / 0x1_0000 == PE_ROW_PROGRAM;
    assert q[0] % 0x1_0000 == n;
    assert |q| == 2 + n && q[2..] == WordsOf(bytes);
    ProgrammedBurns(m, a, bytes);
  }

  lemma WordServed(m: Memory, a: Word, w: Word)
    ensures var q := [PE_WORD_PROGRAM * 0x1_0000 + 2, a, w];
            && Serve(m, q).Some? && Serve(m, q).value.reply == [PE_WORD_PROGRAM * 0x1_0000]
            && Burned(m, Serve(m, q).value.memory, a, Quad(w)) && Target(q) == Addresses(a, 4)
  {
    hide WordByte, Addresses, And;
    var q := [PE_WORD_PROGRAM * 0x1_0000 + 2, a, w];
    assert q[2..] == [w];
  }

  lemma CrcServed(m: Memory, a: Word, n: Word)
    ensures var q := [PE_GET_CRC * 0x1_0000, a, n];
            && Serve(m, q) == Some(Service(m, [PE_GET_CRC * 0x1_0000, Crc.Value(Crc.CrcOf(0xFFFF, Range(m, a, n)))]))
            && Target(q) == iset{}
  {
    hide Crc.CrcOf, Range;
  }
}
