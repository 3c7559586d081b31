/** The USB packets between host and adapter: the adapter's command interpreter and the
    host's half of each operation. */
module Usb {
  import opened Words
  import opened Bits
  import opened Tap
  import opened TapRuns
  import opened Ejtag
  import opened Firmware

  const CMD_XFER_DATA: Byte := 0x85
  const CMD_SET_MODE: Byte := 0x88
  const CMD_SEND_COMMAND: Byte := 0x99
  const CMD_FAST_DATA: Byte := 0xA0
  const CMD_PE_RESPONSES: Byte := 0xC0
  const CMD_PE_RESPONSE: Byte := 0xCC
  const CMD_INSTRUCTION: Byte := 0xDD

  /** Commands of the adapter that are not part of this model. */
  const OTHER_COMMANDS: set<Byte> := {0x10, 0x11, 0x20, 0x22, 0x78, 0x7A, 0x81, 0x82, 0x83, 0x86, 0x87, 0xFE}

  const COMMANDS: set<Byte> := {0x85, 0x88, 0x99, 0xA0, 0xC0, 0xCC, 0xDD}

  function WordAt(buffer: seq<Byte>, i: nat): Word
    requires i + 4 <= |buffer|
  {
    LittleEndian(buffer[i], buffer[i + 1], buffer[i + 2], buffer[i + 3])
  }

  /** The outcomes of giving the processor an instruction: at once, late, or not at all. */
  ghost predicate Instructed(r: Registers, w: Word, level: Byte, s: Registers)
  {
    && (r.ready ==> level == 1 && s == Supply(r, w))
    && (!r.ready && level == 1 ==> s == Supply(Late(r), w))
    && (level != 1 ==> level == 0 && s == Missed(r))
  }

  /** The words are in the buffer, one after the other. */
  ghost predicate WordsAt(buffer: seq<Byte>, from: nat, words: seq<Word>)
    requires from + 4 * |words| <= |buffer|
  {
    forall k: nat :: k < |words| ==> WordAt(buffer, from + 4 * k) == words[k]
  }

  /** Nothing in a reply from a position on but its last byte. */
  predicate ClearFrom(buffer: seq<Byte>, from: nat)
  {
    forall i :: from <= i < 63 && i < |buffer| ==> buffer[i] == 0
  }

  /** How many bytes a reply has after the status. */
  function ReplyLength(command: Byte, count: Byte, bits: Byte, wireMode: Byte): nat
  {
    match command
    case 0x85 => ResponseSize(bits, wireMode)
    case 0xA0 => 5
    case 0xC0 => 4 * count + SampleDelay(wireMode)
    case 0xCC => ResponseSize(32, wireMode)
    case 0xDD => 1
    case _ => 0
  }

  class Adapter {
    const port: Port
    const input: array<Byte>
    const output: array<Byte>
    /** What the compiler put at address zero: the target of a null pointer. */
    const lowRam: array<Byte>

    ghost function Repr(): set<object>
    {
      {port, input, output, lowRam}
    }

    ghost predicate Valid()
      reads port
    {
      && input.Length == output.Length == 64 && lowRam.Length >= 4
      && input != output && input != lowRam && output != lowRam
      && port.Idle()
    }

    constructor (port: Port)
      requires port.Idle()
      ensures Valid() && this.port == port
      ensures fresh(input) && fresh(output) && fresh(lowRam)
    {
      this.port := port;
      input := new Byte[64](_ => 0);
      output := new Byte[64](_ => 0);
      lowRam := new Byte[4](_ => 0);
    }

    /** Collect as many words as the packet asks for. Over two wires each one spills a bit
        into the first byte of the next, which is overwritten; fifteen words and the last
        spill just fit. */
    method PeResponses()
      requires Valid() && port.AtRest() && input[1] <= 15
      requires forall i :: 0 <= i < 64 ==> output[i] == 0
      requires port.dev.regs.ready && input[1] <= |port.dev.regs.out|
      modifies port, input, output, lowRam
      ensures Valid() && port.AtRest() && port.wireMode == old(port.wireMode) && input[0] == old(input[0])
      ensures var n := old(input[1]);
              && WordsAt(output[..], 1, old(port.dev.regs.out)[..n])
              && port.dev.regs.out == old(port.dev.regs.out)[n..]
      ensures port.dev.regs.ready && port.dev.regs.probe == old(port.dev.regs.probe)
      ensures port.dev.regs.fifo == old(port.dev.regs.fifo)
      ensures ClearFrom(output[..], 1 + 4 * old(input[1]) + SampleDelay(port.wireMode))
    {
      hide LittleEndian, Tap.Valid, Shown, SupplyBits, Late, Missed, WordsAt, ClearFrom, SameOutside;
      var ptr := 1;
      ghost var count, words := input[1], port.dev.regs.out;
      NoWordsAt(output[..], 1 + SampleDelay(port.wireMode));
      while input[1] > 0
        invariant input[1] <= count && ptr == 1 + 4 * (count - input[1])
        invariant Valid() && port.AtRest() && port.wireMode == old(port.wireMode) && input[0] == old(input[0])
        invariant WordsAt(output[..], 1, words[..count - input[1]])
        invariant port.dev.regs.out == words[count - input[1]..]
        invariant port.dev.regs.ready && port.dev.regs.probe == old(port.dev.regs.probe)
        invariant port.dev.regs.fifo == old(port.dev.regs.fifo)
        invariant ClearFrom(output[..], ptr + SampleDelay(port.wireMode))
        decreases input[1]
      {
        input[1] := input[1] - 1;
        NextResponse(ptr, words, count - input[1] - 1);
        ptr := ptr + 4;
      }
      input[1] := 255;
    }

    /** Collect word `k`. */
    method NextResponse(ptr: nat, ghost words: seq<Word>, ghost k: nat)
      requires Valid() && port.AtRest() && k < 15 && ptr == 1 + 4 * k
      requires port.dev.regs.ready && k < |words| && port.dev.regs.out == words[k..]
      requires WordsAt(output[..], 1, words[..k]) && ClearFrom(output[..], ptr + SampleDelay(port.wireMode))
      modifies port, output, lowRam
      ensures Valid() && port.AtRest() && port.wireMode == old(port.wireMode)
      ensures WordsAt(output[..], 1, words[..k + 1])
      ensures ClearFrom(output[..], ptr + 4 + SampleDelay(port.wireMode))
      ensures port.dev.regs.out == words[k + 1..]
      ensures port.dev.regs.ready && port.dev.regs.probe == old(port.dev.regs.probe)
      ensures port.dev.regs.fifo == old(port.dev.regs.fifo)
    {
      hide LittleEndian, Tap.Valid, Shown, SupplyBits, Late, Missed, WordsAt, ClearFrom, SameOutside;
      ghost var before := output[..];
      ClearBytes(before, ptr + SampleDelay(port.wireMode));
      OneTaken(words, k);
      ghost var ok, waited := port.GetPeResponse(lowRam, output, ptr);
      WordsAtGrows(before, output[..], words[..k], words[k], SampleDelay(port.wireMode));
    }

    /** What each command expects of the target. */
    ghost predicate Expected(packet: seq<Byte>)
      requires |packet| == 64
      reads port
    {
      var r := port.dev.regs;
      match packet[0]
      case 0xA0 => port.AtRest() && r.ir == ToBits(ETAP_FASTDATA, 5)
      case 0xC0 => port.AtRest() && r.ready && packet[1] <= 15 && packet[1] as nat <= |r.out|
      case 0xCC => port.AtRest()
      case 0xDD => port.AtRest()
      case command => command !in OTHER_COMMANDS
    }

    method ClearOutput()
      requires output.Length == 64
      modifies output
      ensures forall j :: 0 <= j < 64 ==> output[j] == 0
    {
      var i := 0;
      while i < 64
        invariant 0 <= i <= 64
        invariant forall j :: 0 <= j < i ==> output[j] == 0
      {
        output[i] := 0;
        i := i + 1;
      }
    }

    /** Shift the packet's data through the selected register. */
    method TransferData() returns (ghost got: seq<bool>)
      requires Valid() && forall i :: 0 <= i < 64 ==> output[i] == 0
      modifies port, input, output
      ensures Valid() && port.wireMode == old(port.wireMode) && input[0] == old(input[0])
      ensures var n, bits := old(input[5]), BufferBits(old(input[..]), 1, old(input[5]));
              && port.dev == Clocks(old(port.dev), DataPairs(bits))
              && |got| == n + SampleDelay(port.wireMode)
              && SampledAll(old(port.dev), DataPairs(bits), 3, got[..n])
              && (forall k: nat :: k < ResponseSize(n, port.wireMode) ==> output[1 + k] == PaddedByte(got, k))
              && ClearFrom(output[..], 1 + ResponseSize(n, port.wireMode))
    {
      hide LittleEndian, Tap.Valid, Clock, Clocks, SampledAll, BufferBits, Consumed, DataPairs, PaddedByte;
      ghost var before := input[..];
      ghost var base := ResponseBase(output[..], 1, port.wireMode);
      got := port.XferData(input, 1, input[5], output, 1);
      ConsumedKeepsHead(before, input[..], 1, before[5]);
      PaddedOntoZero(base, output[..], 1, got, ResponseSize(before[5], port.wireMode));
    }

    /** Exchange the packet's word through the FASTDATA register. PrAcc goes where over two
        wires the bit beyond the word is. */
    method TransferFastData()
      requires Valid() && port.AtRest() && port.dev.regs.ir == ToBits(ETAP_FASTDATA, 5)
      requires forall i :: 0 <= i < 64 ==> output[i] == 0
      modifies port, input, output
      ensures Valid() && port.AtRest() && port.wireMode == old(port.wireMode) && input[0] == old(input[0])
      ensures port.dev.regs == FastTransfer(old(port.dev.regs), WordAt(old(input[..]), 1))
      ensures WordAt(output[..], 1) == FastReply(old(port.dev.regs), port.wireMode)
      ensures port.wireMode == WIRES_JTAG ==> output[5] == Level(old(port.dev.regs.ready))
      ensures ClearFrom(output[..], 6)
    {
      hide LittleEndian, Tap.Valid, ToBits, Consumed, FastTransfer, FastReply;
      ghost var before := input[..];
      WordBytesAt(before, 1);
      var prAcc := port.FastExchange(input, 1, output, 1);
      ConsumedKeepsHead(before, input[..], 1, 32);
      OrBounded(output[5], prAcc, 8);
      output[5] := Or(output[5], prAcc);
    }

    /** Execute the packet in the input buffer. Commands that answer leave a packet with
        status 1 and their own code at the two ends. */
    method ProcessUsbCommands() returns (ghost got: seq<bool>)
      requires Valid() && Expected(input[..])
      modifies Repr()
      ensures Valid() && port.wireMode == old(port.wireMode)
      ensures old(port.AtRest()) && old(input[0]) in {CMD_FAST_DATA, CMD_PE_RESPONSES, CMD_PE_RESPONSE, CMD_INSTRUCTION}
              ==> port.AtRest()
      ensures old(input[0]) == CMD_SET_MODE ==>
                port.dev == Clocks(old(port.dev), ModePairs(old(input[1]), old(input[2])))
      ensures old(input[0]) == CMD_SEND_COMMAND ==>
                port.dev == Clocks(old(port.dev), CommandPairs(ToBits(old(input[1]), old(input[2]))))
      ensures old(input[0]) == CMD_XFER_DATA ==>
                var n, bits := old(input[5]), BufferBits(old(input[..]), 1, old(input[5]));
                && port.dev == Clocks(old(port.dev), DataPairs(bits))
                && |got| == n + SampleDelay(port.wireMode)
                && SampledAll(old(port.dev), DataPairs(bits), 3, got[..n])
                && forall k: nat :: k < ResponseSize(n, port.wireMode) ==> output[1 + k] == PaddedByte(got, k)
      ensures old(input[0]) == CMD_INSTRUCTION ==>
                Instructed(old(port.dev.regs), WordAt(old(input[..]), 1), output[1], port.dev.regs)
      ensures old(input[0]) == CMD_FAST_DATA ==>
                && port.dev.regs == FastTransfer(old(port.dev.regs), WordAt(old(input[..]), 1))
                && WordAt(output[..], 1) == FastReply(old(port.dev.regs), port.wireMode)
                && (port.wireMode == WIRES_JTAG ==> output[5] == Level(old(port.dev.regs.ready)))
      ensures old(input[0]) == CMD_PE_RESPONSE && old(port.dev.regs.ready && port.dev.regs.out != []) ==>
                && port.dev.regs.out == old(port.dev.regs.out)[1..]
                && WordAt(output[..], 1) == old(port.dev.regs.out)[0]
      ensures old(input[0]) == CMD_PE_RESPONSES ==>
                var n := old(input[1]);
                && port.dev.regs.out == old(port.dev.regs.out)[n..]
                && WordsAt(output[..], 1, old(port.dev.regs.out)[..n])
      ensures old(input[0]) == CMD_PE_RESPONSES ||
              (old(input[0]) == CMD_PE_RESPONSE && old(port.dev.regs.ready && port.dev.regs.out != [])) ==>
                && port.dev.regs.ready && port.dev.regs.probe == old(port.dev.regs.probe)
                && port.dev.regs.fifo == old(port.dev.regs.fifo)
      ensures old(input[0]) in {CMD_XFER_DATA, CMD_INSTRUCTION, CMD_FAST_DATA, CMD_PE_RESPONSE, CMD_PE_RESPONSES} ==>
                output[0] == 1 && output[63] == old(input[0])
      ensures old(input[0]) in {CMD_SET_MODE, CMD_SEND_COMMAND} ==> output[0] == 0 && output[63] == 0
      ensures old(input[0]) !in COMMANDS ==>
                port.dev == old(port.dev) && output[0] == 0xFE && output[63] == old(input[0])
      ensures ClearFrom(output[..], 1 + ReplyLength(old(input[0]), old(input[1]), old(input[5]), port.wireMode))
    {
      hide LittleEndian, Tap.Valid, Clock, Clocks, SampledAll, Update, Capture, ToBits, BufferBits, Consumed,
           CommandPairs, ModePairs, DataPairs, Supply, Late, Missed, FastTransfer, FastReply, Shown, SupplyBits,
           PaddedByte;
      ClearOutput();
      got := [];
      var status: Byte, needReply := 0, true;
      var command := input[0];
      if command == CMD_XFER_DATA {
        status := 1;
        got := TransferData();
      } else if command == CMD_SET_MODE {
        status := 1;
        needReply := false;
        port.SetMode(input[1], input[2]);
      } else if command == CMD_SEND_COMMAND {
        status := 1;
        needReply := false;
        port.SendCommand(input[1], input[2]);
      } else if command == CMD_INSTRUCTION {
        status := 1;
        var prAcc: nat -> bool := *;
        var ok := port.XferInstruction(LittleEndian(input[1], input[2], input[3], input[4]), prAcc);
        output[1] := Level(ok);
      } else if command == CMD_FAST_DATA {
        status := 1;
        TransferFastData();
      } else if command == CMD_PE_RESPONSE {
        status := 1;
        ghost var ok, waited := port.GetPeResponse(lowRam, output, 1);
      } else if command == CMD_PE_RESPONSES {
        status := 1;
        PeResponses();
      } else {
        status := 0xFE;
      }
      if needReply {
        output[0] := status;
        output[63] := input[0];
      }
    }
  }

  lemma PaddedOntoZero(base: seq<Byte>, buffer: seq<Byte>, off: nat, bits: seq<bool>, size: nat)
    requires off + size <= |buffer| == |base| && Filled(base, buffer, off, bits, size)
    requires forall i :: 0 <= i < |base| ==> base[i] == 0
    ensures forall k: nat :: k < size ==> buffer[off + k] == PaddedByte(bits, k)
  {
    hide PaddedByte;
  }

  lemma WordBytesAt(buffer: seq<Byte>, i: nat)
    requires i + 4 <= |buffer|
    ensures buffer[i..i + 4] == WordBytes(WordAt(buffer, i))
  {
    var w := WordAt(buffer, i);
    BytesOf(buffer[i], buffer[i + 1], buffer[i + 2], buffer[i + 3]);
  }

  lemma BytesOf(b0: Byte, b1: Byte, b2: Byte, b3: Byte)
    ensures WordBytes(LittleEndian(b0, b1, b2, b3)) == [b0, b1, b2, b3]
  {
    var w := LittleEndian(b0, b1, b2, b3);
    assert w / 0x100 == b1 + 0x100 * b2 + 0x1_0000 * b3;
    assert w / 0x1_0000 == b2 + 0x100 * b3;
    assert w / 0x100_0000 == b3;
  }

  lemma OneTaken(words: seq<Word>, k: nat)
    requires k < |words|
    ensures words[k..] != [] && words[k..][0] == words[k] && words[k..][1..] == words[k + 1..]
    ensures words[..k + 1] == words[..k] + [words[k]]
  {
  }

  lemma NoWordsAt(buffer: seq<Byte>, from: nat)
    requires |buffer| == 64 && forall i :: 0 <= i < 64 ==> buffer[i] == 0
    ensures WordsAt(buffer, 1, []) && ClearFrom(buffer, from)
  {
  }

  lemma ClearBytes(buffer: seq<Byte>, from: nat)
    requires |buffer| == 64 && ClearFrom(buffer, from)
    ensures forall i :: from <= i < 63 ==> buffer[i] == 0
  {
  }

  /** One more word, and maybe a bit in the byte after it. */
  lemma WordsAtGrows(before: seq<Byte>, after: seq<Byte>, words: seq<Word>, w: Word, delay: nat)
    requires 1 + 4 * |words| + 4 <= |before| == |after|
    requires WordsAt(before, 1, words) && WordAt(after, 1 + 4 * |words|) == w
    requires SameOutside(before, after, 1 + 4 * |words|, 1 + 4 * |words| + 4 + delay)
    ensures WordsAt(after, 1, words + [w])
    ensures ClearFrom(before, 1 + 4 * |words| + delay) ==> ClearFrom(after, 1 + 4 * |words| + 4 + delay)
  {
    hide LittleEndian;
    forall k: nat | k < |words + [w]|
      ensures WordAt(after, 1 + 4 * k) == (words + [w])[k]
    {
      if k < |words| {
        assert WordAt(before, 1 + 4 * k) == words[k];
      }
    }
  }
}
