/** The host's adapter driver: the primitive operations, each one USB packet. */
module Host {
  import opened Words
  import opened Bits
  import opened Tap
  import opened TapRuns
  import opened Ejtag
  import opened Firmware
  import opened Usb

  /** A reply word that makes the driver give up. */
  const BAD_REPLY: Word := 0xDEAD_BEAF

  function Checked(w: Word): Option<Word>
  {
    if w == BAD_REPLY then None else Some(w)
  }

  /** The first `n` bits of a word in a packet. */
  lemma PacketBits(w: Word, buffer: seq<Byte>, n: nat)
    requires 5 <= |buffer| && n <= 32 && buffer[1..5] == WordBytes(w)
    ensures 1 + (n + 7) / 8 <= |buffer| && BufferBits(buffer, 1, n) == ToBits(w, n)
  {
    hide ToBits, Bit, WordBytes;
    WordBufferBits(w, buffer, 1);
    FirstBufferBits(buffer, n);
    ToBitsPrefix(w, n, 32);
  }

  lemma FirstBufferBits(buffer: seq<Byte>, n: nat)
    requires 5 <= |buffer| && n <= 32
    ensures 1 + (n + 7) / 8 <= |buffer| && BufferBits(buffer, 1, n) == BufferBits(buffer, 1, 32)[..n]
  {
    hide Bit;
  }

  /** The number that some bits make, the first one lowest. */
  function Number(bits: seq<bool>): (w: Word)
    requires |bits| <= 32
    ensures w == FromBits(bits)
  {
    Pow2Values();
    Pow2Grows(|bits|, 32);
    FromBits(bits)
  }

  /** A small number has no high bits. */
  lemma BitBeyond(v: nat, n: nat, i: nat)
    requires v < Pow2(n) && n <= i
    ensures !Bit(v, i)
  {
    hide Bit, Shr, Pow2;
    Pow2Grows(n, i);
    ShrToZero(v, i);
    ShrStep(v, i);
  }

  /** The word in a reply has the bits read in its low positions, and zeros above. */
  lemma ReplyBit(buffer: seq<Byte>, got: seq<bool>, k: nat)
    requires |buffer| == 64 && k < 32 && forall i: nat :: i < 4 ==> buffer[1 + i] == PaddedByte(got, i)
    ensures Bit(WordAt(buffer, 1), k) == (k < |got| && got[k])
  {
    hide LittleEndian, Bit, FromBits, Pow2;
    var i, w := k / 8, WordAt(buffer, 1);
    BitOfWord(w, k);
    BytesOf(buffer[1], buffer[2], buffer[3], buffer[4]);
    assert ByteOf(w, i) == WordBytes(w)[i] == buffer[1 + i] == PaddedByte(got, i);
    if 8 * i <= |got| {
      var chunk := Chunk(got, i);
      assert PaddedByte(got, i) == FromBits(chunk);
      if k < |got| {
        assert chunk[k % 8] == got[k];
        BitOfFromBits(chunk, k % 8);
      } else {
        BitBeyond(FromBits(chunk), |chunk|, k % 8);
      }
    } else {
      BitOfZero(k % 8);
    }
  }

  /** The word in a reply is the number that the first 32 bits read make. */
  lemma ReplyWord(buffer: seq<Byte>, got: seq<bool>)
    requires |buffer| == 64 && forall i: nat :: i < 4 ==> buffer[1 + i] == PaddedByte(got, i)
    ensures WordAt(buffer, 1) == Number(if |got| < 32 then got else got[..32])
  {
    hide LittleEndian, Bit, FromBits, ToBits, PaddedByte, Pow2;
    var w, low := WordAt(buffer, 1), if |got| < 32 then got else got[..32];
    var zeros := seq(32 - |low|, _ => false);
    forall k: nat | k < 32
      ensures ToBits(w, 32)[k] == (low + zeros)[k]
    {
      ReplyBit(buffer, got, k);
      ToBitsAt(w, 32, k);
    }
    assert ToBits(w, 32) == low + zeros;
    WordFromBits(w);
    FromBitsConcat(low, zeros);
    ZeroBits(zeros);
    assert Pow2(|low|) * 0 == 0;
  }

  lemma {:induction false} ZeroBits(bits: seq<bool>)
    requires forall i :: 0 <= i < |bits| ==> !bits[i]
    ensures FromBits(bits) == 0
    decreases |bits|
  {
    if bits != [] {
      ZeroBits(bits[1..]);
    }
  }

  /** A reply has its bits in its bytes, and nothing in the bytes after them. */
  lemma ReplyBytes(buffer: seq<Byte>, got: seq<bool>, size: nat)
    requires |buffer| == 64 && size <= 33 && 8 * size >= |got| && ClearFrom(buffer, 1 + size)
    requires forall k: nat :: k < size ==> buffer[1 + k] == PaddedByte(got, k)
    ensures forall i: nat :: i < 4 ==> buffer[1 + i] == PaddedByte(got, i)
  {
    NoBits();
    hide FromBits;
    forall i: nat | i < 4 && i >= size
      ensures PaddedByte(got, i) == 0
    {
      if 8 * i <= |got| {
        assert Chunk(got, i) == [];
      }
    }
  }

  /** Less than 32 bits do not make the error word: it has bit 31. */
  lemma ShortIsGood(bits: seq<bool>)
    requires |bits| < 32
    ensures Number(bits) < BAD_REPLY
  {
    hide FromBits, Pow2;
    Pow2Values();
    Pow2Grows(|bits|, 31);
    assert 2 * Pow2(31) == Pow2(32) by { TwicePow2(31); }
  }

  lemma TwicePow2(n: nat)
    ensures Pow2(n + 1) == 2 * Pow2(n)
  {
  }

  /** The bits read: over two wires one more than sent, as far as there is room for it. */
  function WithStray(got: seq<bool>, stray: bool, wireMode: Byte): (bits: seq<bool>)
    ensures |bits| <= |got| + 1 && (|got| <= 32 ==> |bits| <= 32)
    ensures |got| <= |bits| && bits[..|got|] == got && (wireMode != WIRES_ICSP ==> bits == got)
  {
    if wireMode == WIRES_ICSP && |got| < 32 then got + [stray] else got
  }

  lemma FirstRead(got: seq<bool>, n: nat, wireMode: Byte)
    requires n <= 32 && |got| == n + SampleDelay(wireMode)
    ensures WithStray(got[..n], |got| > n && got[n], wireMode) == if |got| < 32 then got else got[..32]
  {
  }

  lemma LowBitsOf(bits: seq<bool>, n: nat)
    requires n <= |bits| <= 32
    ensures ToBits(Number(bits), n) == bits[..n]
  {
    hide ToBits, FromBits, Bit;
    var w := Number(bits);
    forall k: nat | k < n
      ensures ToBits(w, n)[k] == bits[k]
    {
      ToBitsAt(w, n, k);
      BitOfFromBits(bits, k);
    }
  }

  lemma CommandSelects(d: Device, command: nat)
    requires Tap.Valid(d) && d.st.RunTestIdle? && command < 32
    ensures var e := Clocks(d, CommandPairs(ToBits(command, 5)));
            e.st.RunTestIdle? && e.regs == Select(d.regs, command)
  {
    CommandLoads(d, ToBits(command, 5));
  }

  class UsbPic {
    const adapter: Adapter
    var useExecutive: bool

    ghost predicate Valid()
      reads adapter.port
    {
      adapter.Valid()
    }

    /** Between two operations. */
    ghost predicate AtRest()
      reads adapter.port
    {
      Valid() && adapter.port.AtRest()
    }

    ghost function Repr(): set<object>
    {
      adapter.Repr()
    }

    /** The target's registers. */
    ghost function Regs(): Registers
      reads adapter.port
    {
      adapter.port.dev.regs
    }

    ghost function Mode(): Byte
      reads adapter.port
    {
      adapter.port.wireMode
    }

    constructor (adapter: Adapter)
      requires adapter.Valid()
      ensures Valid() && this.adapter == adapter && !useExecutive
    {
      this.adapter := adapter;
      useExecutive := false;
    }

    /** Not the host's doing: the processor stores words for the probe to collect. */
    method TargetStores(words: seq<Word>)
      requires AtRest()
      modifies Repr()
      ensures AtRest() && Mode() == old(Mode())
      ensures Regs() == old(Regs()).(out := words)
    {
      adapter.port.TargetStores(words);
    }

    /** Nor this: the processor has taken every FASTDATA word and stores its answer. */
    method TargetAnswers(words: seq<Word>)
      requires AtRest()
      modifies Repr()
      ensures AtRest() && Mode() == old(Mode())
      ensures Regs() == old(Regs()).(fifo := [], out := words)
    {
      adapter.port.TargetAnswers(words);
    }

    method NewPacket(b0: Byte, b1: Byte, b2: Byte, b3: Byte, b4: Byte, b5: Byte) returns (buf: array<Byte>)
      ensures fresh(buf) && buf.Length == 64
      ensures buf[..6] == [b0, b1, b2, b3, b4, b5]
    {
      buf := new Byte[64];
      buf[0], buf[1], buf[2], buf[3], buf[4], buf[5] := b0, b1, b2, b3, b4, b5;
    }

    /** hid_write: the packet reaches the adapter's input buffer. */
    method HidWrite(buf: array<Byte>)
      requires Valid() && buf.Length == 64 && buf !in adapter.Repr()
      modifies adapter.input
      ensures adapter.input[..] == buf[..]
    {
      forall i | 0 <= i < 64 {
        adapter.input[i] := buf[i];
      }
    }

    /** hid_read: the reply comes back. */
    method HidRead(buf: array<Byte>)
      requires Valid() && buf.Length == 64 && buf !in adapter.Repr()
      modifies buf
      ensures buf[..] == adapter.output[..]
    {
      forall i | 0 <= i < 64 {
        buf[i] := adapter.output[i];
      }
    }

    /** Reset the TAP controller. */
    method SetMode(mode: Byte, nBits: Byte)
      requires Valid()
      modifies Repr()
      ensures Valid() && Mode() == old(Mode())
      ensures adapter.port.dev == Clocks(old(adapter.port.dev), ModePairs(mode, nBits))
    {
      hide Clocks, ModePairs, Tap.Valid;
      var buf := NewPacket(CMD_SET_MODE, mode, nBits, 0, 0, 0);
      HidWrite(buf);
      ghost var got := adapter.ProcessUsbCommands();
    }

    method SendCommand(command: Byte, nBits: Byte)
      requires Valid()
      modifies Repr()
      ensures Valid() && Mode() == old(Mode())
      ensures adapter.port.dev == Clocks(old(adapter.port.dev), CommandPairs(ToBits(command, nBits)))
      ensures old(AtRest()) && nBits > 0 ==>
                AtRest() && Regs() == old(Regs()).(ir := (CAPTURED_IR + ToBits(command, nBits))[nBits..])
      ensures old(AtRest()) && nBits == 5 && command < 32 ==> AtRest() && Regs() == Select(old(Regs()), command)
    {
      hide Clocks, CommandPairs, Tap.Valid, ToBits, Select;
      if AtRest() && nBits > 0 {
        CommandAccess(adapter.port.dev, ToBits(command, nBits));
      }
      if AtRest() && nBits == 5 && command < 32 {
        CommandSelects(adapter.port.dev, command);
      }
      var buf := NewPacket(CMD_SEND_COMMAND, command, nBits, 0, 0, 0);
      HidWrite(buf);
      ghost var got := adapter.ProcessUsbCommands();
    }

    /** Reset the TAP controller and return to idle. */
    method ResetTap()
      requires AtRest()
      modifies Repr()
      ensures AtRest() && Mode() == old(Mode())
      ensures Regs() == old(Regs()).(ir := IDCODE)
    {
      hide Clocks, ModePairs, Tap.Valid;
      ghost var start := adapter.port.dev;
      SetMode(0x1F, 6);
      ModeFromIdle(start);
    }

    /** Select an EJTAG register. */
    method Choose(command: Byte)
      requires AtRest() && command < 32
      modifies Repr()
      ensures AtRest() && Mode() == old(Mode())
      ensures Regs() == Select(old(Regs()), command)
    {
      SendCommand(command, 5);
    }

    /** Shift the low `n` bits of a word through a data register. The result is the number
        that the bits read make. Over two wires one more bit is read than sent, and if there
        is room it comes on top. */
    method XferData(data: Word, n: Byte) returns (r: Option<Word>, ghost got: seq<bool>, ghost stray: bool)
      requires Valid() && n <= 32
      modifies Repr()
      ensures Valid() && Mode() == old(Mode())
      ensures adapter.port.dev == Clocks(old(adapter.port.dev), DataPairs(ToBits(data, n)))
      ensures |got| == n && SampledAll(old(adapter.port.dev), DataPairs(ToBits(data, n)), 3, got)
      ensures r == Checked(Number(WithStray(got, stray, Mode())))
      ensures |WithStray(got, stray, Mode())| < 32 ==> r.Some?
    {
      hide Clocks, DataPairs, Tap.Valid, SampledAll, LittleEndian, ByteOf, PaddedByte, Bit, Number, ClearFrom;
      var buf := NewPacket(CMD_XFER_DATA, ByteOf(data, 0), ByteOf(data, 1), ByteOf(data, 2), ByteOf(data, 3), n);
      assert buf[1..5] == WordBytes(data);
      PacketBits(data, buf[..], n);
      HidWrite(buf);
      got := adapter.ProcessUsbCommands();
      HidRead(buf);
      r := Checked(LittleEndian(buf[1], buf[2], buf[3], buf[4]));
      ReplyBytes(buf[..], got, ResponseSize(n, Mode()));
      ReplyWord(buf[..], got);
      stray := |got| > n && got[n];
      FirstRead(got, n, Mode());
      got := got[..n];
      if |WithStray(got, stray, Mode())| < 32 {
        ShortIsGood(WithStray(got, stray, Mode()));
      }
    }

    /** The same on a selected register of exactly `n` bits, at rest: the register is
        written with the low bits of the word, and its contents are the reply. */
    method ExchangeBits(data: Word, n: Byte) returns (r: Option<Word>, ghost stray: bool)
      requires AtRest() && 0 < n <= 32 && |Capture(Regs())| == n
      modifies Repr()
      ensures AtRest() && Mode() == old(Mode())
      ensures Regs() == Update(old(Regs()), ToBits(data, n))
      ensures r == Checked(Number(WithStray(Capture(old(Regs())), stray, Mode())))
      ensures |WithStray(Capture(old(Regs())), stray, Mode())| < 32 ==> r.Some?
      ensures r.Some? ==> ToBits(r.value, n) == Capture(old(Regs()))
    {
      hide Clock, Clocks, Tap.Valid, Capture, Update, Bit, ToBits, Number;
      ghost var start := adapter.port.dev;
      ghost var got;
      r, got, stray := XferData(data, n);
      forall k: nat | k < |got|
        ensures var e := Clocks(start, DataPairs(ToBits(data, n))[..3 + 0 + k]); e.driven ==> got[k] == e.tdo
      {
        assert Sampled(start, DataPairs(ToBits(data, n)), k + 3, got[k]);
      }
      FullAccess(start, ToBits(data, n), 0, got);
      assert got == Capture(start.regs);
      LowBitsOf(WithStray(got, stray, Mode()), n);
    }

    method XferInstruction(instruction: Word) returns (ok: bool)
      requires AtRest()
      modifies Repr()
      ensures AtRest() && Mode() == old(Mode())
      ensures Instructed(old(Regs()), instruction, Level(ok), Regs())
    {
      hide Tap.Valid, LittleEndian, ByteOf, Supply, Late, Missed;
      var buf := NewPacket(CMD_INSTRUCTION, ByteOf(instruction, 0), ByteOf(instruction, 1),
                           ByteOf(instruction, 2), ByteOf(instruction, 3), 0);
      BytesRoundTrip(instruction);
      HidWrite(buf);
      ghost var got := adapter.ProcessUsbCommands();
      HidRead(buf);
      ok := buf[1] % 2 == 1;
    }

    method XferFastData(data: Word) returns (r: Option<Word>)
      requires AtRest() && Regs().ir == ToBits(ETAP_FASTDATA, 5)
      modifies Repr()
      ensures AtRest() && Mode() == old(Mode())
      ensures Regs() == FastTransfer(old(Regs()), data)
      ensures r == Checked(FastReply(old(Regs()), Mode()))
    {
      hide Tap.Valid, LittleEndian, ByteOf, FastReply, FastTransfer, ToBits;
      var buf := NewPacket(CMD_FAST_DATA, ByteOf(data, 0), ByteOf(data, 1), ByteOf(data, 2), ByteOf(data, 3), 0);
      BytesRoundTrip(data);
      HidWrite(buf);
      ghost var got := adapter.ProcessUsbCommands();
      HidRead(buf);
      r := Checked(LittleEndian(buf[1], buf[2], buf[3], buf[4]));
    }

    method GetPeResponse() returns (r: Option<Word>)
      requires AtRest() && Regs().ready && Regs().out != []
      modifies Repr()
      ensures AtRest() && Mode() == old(Mode()) && Regs().ready
      ensures Regs().probe == old(Regs().probe) && Regs().fifo == old(Regs().fifo)
      ensures Regs().out == old(Regs().out)[1..]
      ensures r == Checked(old(Regs().out)[0])
    {
      hide Tap.Valid, LittleEndian;
      var buf := NewPacket(CMD_PE_RESPONSE, 0, 0, 0, 0, 0);
      HidWrite(buf);
      ghost var got := adapter.ProcessUsbCommands();
      HidRead(buf);
      r := Checked(LittleEndian(buf[1], buf[2], buf[3], buf[4]));
    }

    /** Collect up to fifteen words with one packet, in order, into the caller's array. */
    method GetPeResponses(count: Byte, data: array<Word>, from: nat)
      requires AtRest() && Regs().ready && count <= 15 && count <= |Regs().out|
      requires from + count <= data.Length && data !in Repr()
      modifies Repr(), data
      ensures AtRest() && Mode() == old(Mode()) && Regs().ready
      ensures Regs().probe == old(Regs().probe) && Regs().fifo == old(Regs().fifo)
      ensures Regs().out == old(Regs().out)[count..]
      ensures data[..] == old(data[..])[..from] + old(Regs().out)[..count] + old(data[..])[from + count..]
    {
      hide Tap.Valid, LittleEndian, WordsAt, WordAt, ToBits, Clocks, ModePairs, CommandPairs, DataPairs, BufferBits,
           SampledAll, PaddedByte, Instructed, FastTransfer, FastReply, ClearFrom, ReplyLength, ResponseSize;
      var buf := NewPacket(CMD_PE_RESPONSES, count, 0, 0, 0, 0);
      ghost var words := Regs().out[..count];
      HidWrite(buf);
      ghost var got := adapter.ProcessUsbCommands();
      HidRead(buf);
      Unpack(buf, count, data, from, words);
    }

    /** The words of a reply into the caller's array. */
    method Unpack(buf: array<Byte>, count: Byte, data: array<Word>, from: nat, ghost words: seq<Word>)
      requires buf.Length == 64 && count <= 15 && count as nat == |words| && from + count <= data.Length
      requires WordsAt(buf[..], 1, words)
      modifies data
      ensures data[..] == old(data[..])[..from] + words + old(data[..])[from + count..]
    {
      hide LittleEndian;
      ghost var reply := buf[..];
      var i := 0;
      while i < count
        invariant i <= count && buf[..] == reply
        invariant forall j :: 0 <= j < i ==> data[from + j] == words[j]
        invariant forall j :: 0 <= j < data.Length && !(from <= j < from + i) ==> data[j] == old(data[j])
      {
        assert WordAt(reply, 1 + 4 * i) == words[i];
        data[from + i] := LittleEndian(buf[1 + 4 * i], buf[2 + 4 * i], buf[3 + 4 * i], buf[4 + 4 * i]);
        i := i + 1;
      }
    }
  }
}
