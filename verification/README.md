# A model of the PIC32 programmer

This project models the PIC32 flash programmer in Dafny and proves what it is for: that a
file given to the host program ends up in the flash of the chip, byte for byte as far as the
chip has the file's addresses, through a memory image, USB packets, an adapter that wiggles pins, a JTAG TAP, a MIPS processor that
is fed one instruction at a time, a loader and an executive in the target's RAM.

`dafny verify dfyconfig.toml` checks everything. Each module is one file:

| module | what it models |
|---|---|
| `Words`, `Bits` | 32-bit words, bytes, bits, bitwise OR |
| `Mips` | the MIPS32 instructions the programs use, with branch delay slots, the probe's memory segment, and arrivals interleaved with execution |
| `Loader` | the 21-instruction loader, decoded from its table of halfwords |
| `Installer` | the instructions that plant and start the loader, and the whole download |
| `Tap`, `TapRuns`, `Ejtag` | the TAP controller (IEEE Std 1149.1, clauses 4.5 and 6.1), shift registers, EJTAG registers, and what the clock sequences do to them |
| `Firmware`, `Usb` | the adapter: pins, four-wire and two-wire clocking, transfers in byte buffers, packets |
| `Host` | the host's driver for that adapter, one packet an operation |
| `Executive` | the download and the word read through all of these layers |
| `Pickit`, `PickitRead` | the PICkit2 driver's download in tens and its word read |
| `Crc` | both implementations of the checksum (section 2 of ITU-T V.41) and what it detects |
| `Image`, `Hex`, `HexPrint`, `HexRefuse` | the memory image, the two file readers, printing, and what is refused |
| `Session` | the executive as a machine that answers requests, and the driver's requests |
| `Flash`, `Program` | families, blocks and rows, dirty blocks, configuration words, verification |
| `ReadBack` | reading memory into a file |
| `Delivery` | what a file asks for, by addresses alone |
| `Application` | the run of the program from a file to a programmed chip |
| `HidQueue`, `HidScan` | the HID library's report queue between threads, and its descriptor scanner |
| `Bitbang`, `BitbangRuns`, `BitbangCredit` | the serial adapter: TAP clocks as characters, and flow control |

How the layers meet: `Application.ProgramFile` is proved from `Program.Programmer.DoProgram`,
that from requests in `Session`, those from packets in `Host` and `Usb`, those from pin
sequences in `Firmware`, and those from the TAP in `TapRuns` and `Ejtag`. On the target's side
`Executive.LoadOnto` joins what the packets put into the target's queues to what the processor
does with it in `Mips`, `Loader` and `Installer`.

Results that are not what one would expect from the code's comments or from the obvious
reading:

- A PICkit2 download starts the executive exactly when the number of words is even
  (`Pickit.StartsIffEven`); all families' are.
- The word read of the USB adapter returns the right word over four wires, but over two wires
  exactly when the word is odd, because PrAcc takes the place of the low bit; and a word
  equal to 0xDEADBEAF is always taken for an error (`Executive.ReadWord`).
- After a first poll that finds no access pending, the adapter sends zeros in the following
  polls. They switch the probe off, and the one that succeeds completes the access itself, so
  that the processor gets the previous instruction twice (`Firmware.Port.WaitEtapReady`,
  `Ejtag.LateSupplyRepeats`).
- The bootloader entry of the family table has no executive and no place for configuration
  words. A writing run with it that uses boot memory can complete only when there is nothing
  else to write and verification is skipped, and then it leaves the configuration words out
  (`Program.Programmer.DoProgram`, `Program.BootloaderExample`). The adapter modelled here
  never selects that entry: it refuses identifications whose low twelve bits are not 0x053
  (`Software/Pic32prog/adapter-usbpic.c:896`), and the entry's are not.
- Bytes of a file for addresses that the chip does not have are dropped, and the run has
  success all the same. Everything in the file arrives exactly when all its addresses are of
  places on the chip (`Application.AllArriveIff`). On MZ parts what arrives has one bit of boot
  memory cleared, as a signature (`Program.Signed`).
- Reading memory never ends for sizes above 0xFFFFFC00 (`ReadBack.StopsIff`), and gives the
  bytes at the addresses asked for exactly when no block of 1024 crosses into another segment
  (`ReadBack.FaithfulIff`).
- The report queue can lose a wakeup exactly when more than one caller reads
  (`HidQueue.LosesWakeupsIff`). After a fatal error of the event loop any caller can come to
  sleep for ever, as long as there has been no shutdown (`HidQueue.LeftBehindIff`).
- The serial adapter's counter misses three characters after every read, so 987 rather than
  984 can be under way, and its 1024-byte buffer is safe against 37 uncounted delay
  characters, not 40 (`BitbangCredit.SafeDelays`). That is for the largest sends that the
  interface documents, 14 TMS and 64 TDI bits. The driver's own sends are smaller, at most 38
  characters to write (33 TDI bits) and 43 to read (6 TMS and 32 TDI bits); for sends up to
  these sizes the limit is 78.
- S1 and S2 records never store anything (`HexPrint.ShortFormsStoreNothing`). Of the records of a
  HEX file only those of types 1 and 5 are not checked at all (`HexRefuse.BytesMean`).
- The descriptor scanner finds only one-byte Report ID items (`HidScan.OtherSizesUnnoticed`).

Assumptions that the model makes about the world: the target's TAP follows the standard, the
executive answers requests as `Session.Serve` says or reports an error, flash can only clear
bits, and packets arrive. A FASTDATA capture with no word waiting is taken to be zero. PrAcc is
arbitrary at every poll after the first; it is taken not to change within one register access,
and the processor is taken to make its next access at once when one is completed. That includes
the case of `Ejtag.LateSupplyRepeats`: the new instruction is acknowledged although the poll
that succeeded late has switched the probe off, so the processor is taken to make its access
with the probe disabled. In `Firmware.Port.WaitEtapReady` the variable that receives the
register has a fifth byte for the stray bit of the two-wire link. The original's has four
(`Firmware/pic32prog.c:346`), and the bit is OR-ed into whatever lies next to it, which may be
the word that later polls send. `Mips.TimingIrrelevant` shows that it does not matter when,
between arrivals, the processor runs.

## Model

| member | source | states |
|---|---|---|
| Mips.TimingIrrelevant | Software/Pic32prog/adapter-usbpic.c:647-715 | In any interleaving of arriving words and processor cycles the processor is always in a state it also reaches when all words are there from the start, so no outcome depends on timing |
| Mips.ReachesLinear | Software/Pic32prog/executive.c:33-55 | Of two states reached from one, one reaches the other: a run has no branches |
| Mips.BlockedNeverStops | Software/Pic32prog/executive.c:33-55 | A run that blocks at some place never arrives at another one |
| Mips.OrHalf | Software/Pic32prog/adapter-usbpic.c:669-684 | lui followed by ori builds the word with those halves |
| Loader.Disassembles | Software/Pic32prog/executive.c:33-55 | Each of the 21 instruction words in the table decodes to the instruction listed for its position |
| Loader.StoreKeepsLoader | Software/Pic32prog/executive.c:45-45 | A store outside the loader's own 84 bytes leaves the loader in memory intact, through every alias of the address |
| Loader.CopiesWord | Software/Pic32prog/executive.c:43-48 | One turn of the inner loop takes one FASTDATA word, stores it at the current address, and changes nothing else |
| Loader.SkipsEmptyBlock | Software/Pic32prog/executive.c:37-42 | A block of zero words brings the loader back to its start with memory as it was |
| Loader.FindsEndMark | Software/Pic32prog/executive.c:37-40 | The end mark as a count leaves the loop |
| Loader.LoadsBlocks | Software/Pic32prog/executive.c:33-55 | For every list of blocks, of any sizes including zero, the loader consumes exactly the blocks' stream and memory becomes the blocks written in order, nothing else |
| Loader.LoaderRuns | Software/Pic32prog/executive.c:33-55 | From its first instruction, on any stream of blocks and an end mark, the loader ends at 0xA0000900 having consumed exactly that stream and changed exactly the blocks' memory |
| Installer.PlantsWord | Software/Pic32prog/adapter-usbpic.c:675-684 | The four instructions for a table entry put the entry's word at its place and move the pointer on |
| Installer.PlantedExactly | Software/Pic32prog/adapter-usbpic.c:675-684 | After planting, the loader's 21 words are at their places and every other address is as before |
| Installer.Partitions | Software/Pic32prog/adapter-usbpic.c:647-666 | The bus-matrix setup of MX parts writes the four registers it should, two of them with the size it reads, and nothing else |
| Installer.Installs | Software/Pic32prog/adapter-usbpic.c:647-691 | For both family branches the instructions leave the loader in RAM and control at its first instruction |
| Installer.ExecutiveStarts | Software/Pic32prog/adapter-usbpic.c:647-715 | For every list of executive words and both family branches: word i is at RAM 0xA0000900+4i, control is there, and what follows the download is unread |
| Installer.ExecutiveStartsAnyTime | Software/Pic32prog/adapter-usbpic.c:647-715 | The same when instructions and data arrive in any interleaving with execution |
| Installer.TargetExists | Software/Pic32prog/adapter-usbpic.c:638-715 | For every executive and memory there is a processor in the situation these results assume |
| Installer.UntouchedAt | Software/Pic32prog/executive.c:43-48 | Addresses outside a block are as they were |
| Installer.WrittenAt | Software/Pic32prog/executive.c:43-48 | Word i of a block is at its address |
| TapRuns.DataAccess | Firmware/pic32prog.c:187-226 | For any number of bits from one on, the data-register sequence returns to Run-Test/Idle and updates the register with the last bits of what it contained followed by the bits sent |
| TapRuns.DataAccessReads | Firmware/pic32prog.c:187-226 | TDO after clock 3+k of that sequence is bit k of the register's old contents followed by the bits sent |
| TapRuns.DataAccessReturnsIffSomeBit | Firmware/pic32prog.c:187-226 | The sequence comes back to Run-Test/Idle if and only if there is at least one bit |
| TapRuns.CommandAccess | Firmware/pic32prog.c:163-178 | For any number of bits from one on, the command sequence returns to Run-Test/Idle, the instruction is the last five of the captured pattern followed by the bits sent, and nothing else changes |
| TapRuns.CommandLoads | Firmware/pic32prog.c:163-178 | Five bits become the instruction |
| TapRuns.CommandReturnsIffSomeBit | Firmware/pic32prog.c:163-178 | The command sequence comes back to Run-Test/Idle if and only if there is at least one bit |
| TapRuns.ModeResets | Firmware/pic32prog.c:148-153 | The mode 0x1F with six bits brings the controller to Run-Test/Idle with IDCODE selected from every state |
| TapRuns.ModeFromIdle | Firmware/pic32prog.c:148-153 | From Run-Test/Idle it changes nothing but the instruction register |
| Ejtag.FullAccess | Firmware/pic32prog.c:187-226 | An access of exactly the register's length writes the bits sent, and what is sampled is what the register contained |
| Ejtag.PollControl | Firmware/pic32prog.c:344-355 | Polling enables the probe, completes no access, and shows PrAcc at its bit |
| Ejtag.ZeroControl | Firmware/pic32prog.c:344-355 | A poll that sends zeros, as every poll after the first does, switches the probe off, and completes an access if and only if one is pending |
| Ejtag.SupplyQueues | Firmware/pic32prog.c:331-340 | With an access pending and no store waiting, a supplied instruction is queued for the processor and no other traffic changes |
| Ejtag.LateSupplyRepeats | Firmware/pic32prog.c:331-355 | When a poll succeeds late, the processor gets the previous instruction a second time before the new one |
| Firmware.Port.IoClockBit | Firmware/pic32prog.c:92-147 | Over four wires and over the two-wire link alike, one call is one TCK cycle with these TMS and TDI levels, phase framing is kept, and the level returned is TDO before the cycle (four wires) or after it (two wires) |
| Firmware.Port.SetMode | Firmware/pic32prog.c:148-153 | The clocks are the mode's bits, low bit first, in both wire modes |
| Firmware.Port.SendCommand | Firmware/pic32prog.c:163-178 | The clocks are the command sequence of the code's bits |
| Firmware.Port.XferData | Firmware/pic32prog.c:187-226 | For every number of bits, any buffers and both wire modes: the clocks are the data sequence of the buffer's bits, the response holds TDO bit by bit from the first one on, with a stray last bit over two wires, the data buffer is shifted away, and no other byte changes |
| Firmware.Port.Exchange | Firmware/pic32prog.c:187-226 | On a 32-bit register at rest: it is written with the word sent, and the first 32 response bits are what it contained |
| Firmware.Port.XferFastData | Firmware/pic32prog.c:229-262 | The clocks are those of 33 bits, a zero and the word; which TDO bits land in PrAcc and which in the response, in each wire mode |
| Firmware.Port.FastExchange | Firmware/pic32prog.c:229-262 | The register side gets exactly the word; the response word is the reply in the wire mode |
| Firmware.FastReadsBack | Firmware/pic32prog.c:229-262 | The response word is the register's word over four wires, and the word with PrAcc for its low bit over two |
| Firmware.Port.WaitEtapReady | Firmware/pic32prog.c:344-355 | With PrAcc at the later polls as an input: it succeeds if and only if an access is pending at one of the first retryCounts+1 polls; at the first one the probe is on then; otherwise the probe is off afterwards whatever the result, a late success has completed the access with the old contents of the data register, and a failure has completed nothing |
| Firmware.Port.XferInstruction | Firmware/pic32prog.c:331-340 | It succeeds if and only if an access is pending at one of 151 polls; one at the first poll gets the instruction; one that shows up at a later poll gets what the data register had, and the instruction follows; a failure supplies nothing |
| Firmware.Port.GetPeResponse | Firmware/pic32prog.c:389-395 | Whatever the wait finds, the four response bytes are the word the data register shows, in both wire modes, and the processor goes on with what the null data pointer reads; if a stored word was waiting and the processor ready, they are that word, it is collected, and nothing else is; only the spill byte beyond the response is touched |
| Usb.Adapter.PeResponses | Firmware/main.c:413-423 | For any count up to 15, the reply holds the next words in order, although each two-wire transfer spills a bit into the next word's first byte |
| Usb.Adapter.ProcessUsbCommands | Firmware/main.c:265-450 | Each packet of the seven commands has the effect and the reply of its command, and every reply byte that is not the command's is zero; an unknown command has no effect on the target and is answered with status 0xFE |
| Host.UsbPic.XferData | Software/Pic32prog/adapter-usbpic.c:262-294 | Exactly the low n bits of the word are shifted, and the result is the number of which the n bits that TDO showed are the binary digits, over two wires with one stray digit above them if there is room; it is missing only if that number is the error word, which fewer than 32 digits never make |
| Host.UsbPic.ExchangeBits | Software/Pic32prog/adapter-usbpic.c:262-294 | On a register of n bits: it is written with the low n bits of the word, and the result is its old contents as a number, under the same conditions |
| Host.UsbPic.SendCommand | Software/Pic32prog/adapter-usbpic.c:200-213 | One packet makes the access of any number of bits, and with five bits selects the register |
| Host.UsbPic.XferInstruction | Software/Pic32prog/adapter-usbpic.c:298-337 | One packet supplies the instruction at once, late or not at all, and tells whether it did |
| Host.UsbPic.XferFastData | Software/Pic32prog/adapter-usbpic.c:339-402 | One packet transfers the word; the result is the reply in the wire mode unless it is the error word |
| Host.UsbPic.GetPeResponse | Software/Pic32prog/adapter-usbpic.c:413-455 | The result is the executive's next word unless it is the error word |
| Host.UsbPic.GetPeResponses | Software/Pic32prog/adapter-usbpic.c:470-505 | The next words, in order, at their places in the caller's array, and no other element changes |
| Executive.PlantLoader | Software/Pic32prog/adapter-usbpic.c:647-691 | Packets for steps 1 to 6 give the processor exactly the installing instructions of the family branch |
| Executive.LoadExecutive | Software/Pic32prog/adapter-usbpic.c:638-723 | The packets give exactly the installing instructions and exactly the download, then the version request; success if and only if the answer is the family's version |
| Executive.LoadOnto | Software/Pic32prog/adapter-usbpic.c:638-723 | End to end: after the packets, the processor reaches 0xA0000900 with the executive's words in RAM and the version request as its next unread word |
| Executive.ReadWord | Software/Pic32prog/adapter-usbpic.c:567-591 | The instructions that the packets put into the processor's queue make it run until it waits with the word stored; what is read is the word in memory if and only if it is not the error word and either the wires are four or the word is odd |
| Executive.FastReplyFaithful | Software/Pic32prog/adapter-usbpic.c:339-402 | The same condition for one FASTDATA transfer |
| Pickit.PickitAdapter.Download | Software/Pic32prog/adapter-pickit2.c:234-293 | What is transferred is the header, the words up to the next multiple of ten, and the end mark |
| Pickit.EvenCountStarts | Software/Pic32prog/adapter-pickit2.c:158-293 | For an even count and zero padding the target ends as after the exact download, the surplus consumed as empty blocks |
| Pickit.OddCountWaits | Software/Pic32prog/adapter-pickit2.c:158-293 | For an odd count the loader takes the end mark for an address and waits for ever |
| Pickit.StartsIffEven | Software/Pic32prog/adapter-pickit2.c:158-293 | The executive is reached if and only if the count is even |
| Application.EveryFamilyStarts | Software/Pic32prog/target.c:29-39 | Every family's count is even and its array long enough, so the PICkit starts every executive |
| PickitRead.TruncatedWord | Software/Pic32prog/adapter-pickit2.c:448-523 | Reading 32 of the 33 bits gives PrAcc and the low 31 bits |
| PickitRead.TruncatedUpdate | Software/Pic32prog/adapter-pickit2.c:448-523 | The truncated access completes the store if and only if the word's top bit is clear |
| PickitRead.ReadsMemoryWord | Software/Pic32prog/adapter-pickit2.c:448-523 | For every word in memory, and whatever the PrAcc bits are, the two instruction sequences and the recombination give exactly that word, even when the first access leaves the store pending |
| Crc.CrcSplits | Software/Pic32prog/adapter-usbpic.c:46-61 | The checksum of a concatenation is the second part's, started from the first part's |
| Crc.TableIsShift | Software/Pic32prog/adapter-usbpic.c:48-51 | Each table entry is the effect of four shifts of the bit-serial register |
| Crc.CalculateCrc | Software/Pic32prog/adapter-usbpic.c:46-61 | The nibble-table loop, cut to 16 bits only at the end, equals the bit-serial checksum for every message and start value |
| Crc.PeCrc.BuildTable | Software/Pic32prog/executive.c:383-389 | The executive's table loop builds, for each byte, its effect on a zero register |
| Crc.PeCrc.Update | Software/Pic32prog/executive.c:392-395 | One step of the executive is eight steps of the bit-serial register |
| Crc.PeCrc.UpdateBlock | Software/Pic32prog/executive.c:395-400 | A block's checksum in the executive equals the bit-serial one |
| Crc.BothCompute | Software/Pic32prog/adapter-usbpic.c:850-856 | Host and executive compute the same checksum for every message and start value |
| Crc.CrcLinear | Software/Pic32prog/adapter-usbpic.c:46-61 | The register is linear in state and message together |
| Crc.ZerosKeepNonzero | Software/Pic32prog/adapter-usbpic.c:46-61 | Shifting is injective: a nonzero register never becomes zero on zero bits |
| Crc.DetectsBurst | Software/Pic32prog/adapter-usbpic.c:850-856 | Two bit sequences that differ only within 16 consecutive positions have different checksums, at any length and place |
| Crc.DetectsBlockBurst | Software/Pic32prog/adapter-usbpic.c:850-856 | The same for blocks of bytes |
| Crc.MissesGenerator | Software/Pic32prog/adapter-usbpic.c:46-61 | Sixteen is the limit: adding the generator, which is 17 bits long, anywhere in any message and from any register leaves the checksum as it was |
| Image.Image.StoreData | Software/Pic32prog/pic32prog.c:95-127 | The image after one more store is that of the longer list: the last byte stored at a place wins, through either alias, and addresses outside both windows have no effect |
| Image.Aliases | Software/Pic32prog/pic32prog.c:95-127 | The virtual and the physical address are the same place, and below the virtual windows only the physical ones are places |
| Image.LastConcat | Software/Pic32prog/pic32prog.c:95-127 | Of two lists of stores the later decides where it stores anything |
| Delivery.PlaceAt | Software/Pic32prog/pic32prog.c:95-127 | The addresses of a place of the image are its physical address and the virtual one 0x80000000 above, and no others |
| Delivery.PlaceIsAddress | Software/Pic32prog/pic32prog.c:95-127 | Every address in a window is at the place of its physical address |
| Delivery.HoldsLast | Software/Pic32prog/pic32prog.c:95-127 | The image has at every place the byte of the last store for its address |
| Hex.Reader.ReadHex | Software/Pic32prog/pic32prog.c:200-281 | The loop's outcome and its effect on the image are those of the line-by-line run, for every text |
| Hex.Reader.ReadRecord | Software/Pic32prog/pic32prog.c:227-277 | One record's outcome and effect are those of the line's meaning |
| Hex.Reader.ReadSrec | Software/Pic32prog/pic32prog.c:133-195 | The same for S-records, with what earlier lines left in the buffer where a line is too short for its record |
| Hex.Reader.ReadFile | Software/Pic32prog/pic32prog.c:811-817 | A file is accepted if and only if one reader reads it to its end, and the image then holds that reader's stores alone |
| Hex.OneReaderOnly | Software/Pic32prog/pic32prog.c:811-817 | If the first reader passes a file on and the second accepts it, the first has stored nothing |
| HexPrint.RecordRead | Software/Pic32prog/pic32prog.c:214-277 | A printed record, in either case of digits, is read as what was printed, its checksum accepted |
| HexPrint.PrintedRead | Software/Pic32prog/pic32prog.c:200-281 | Printed records followed by anything are read as their stores followed by the reading of the rest |
| HexPrint.HexRoundTrip | Software/Pic32prog/pic32prog.c:200-281 | For every list of data records (up to 16 bytes, 4-aligned) and linear-address records, with or without an end record, printing and reading gives exactly the records' bytes at their addresses |
| HexPrint.VirtualSameImage | Software/Pic32prog/pic32prog.c:95-127 | A file with virtual addresses makes the same image as the same file with physical ones, for every list of printable records |
| HexPrint.SRecordRead | Software/Pic32prog/pic32prog.c:153-191 | An S1, S2 or S3 record is read as its bytes at its address, whatever the buffer had before, and the other types up to S6 are skipped |
| HexPrint.SrecRoundTrip | Software/Pic32prog/pic32prog.c:133-195 | A file of S-records of types 0 to 6 in any mixture, with or without an end record and anything after it, is read as the bytes of its S1, S2 and S3 records at their addresses, so the form has no part in the image |
| HexPrint.ShortFormsStoreNothing | Software/Pic32prog/pic32prog.c:168-191 | Records other than S3 have no effect on any image, whatever was stored before them |
| HexPrint.ExampleHex | Software/Pic32prog/pic32prog.c:200-281 | Two lines, character by character, that store one byte at the start of flash |
| HexPrint.ExampleSrec | Software/Pic32prog/pic32prog.c:133-195 | An S3 line, character by character, that does the same |
| HexRefuse.BytesMean | Software/Pic32prog/pic32prog.c:214-277 | For every list of up to 126 bytes written as a HEX line: type 1 ends the file, type 5 is skipped, and any other record is refused if and only if it is shorter than its count says, unaligned, longer than 16 bytes, of another type than 0 or 4, an address record not of two bytes, or its bytes do not add up to a multiple of 256; otherwise it is its data at its address, or the high half of the addresses |
| HexRefuse.BadRecordRefused | Software/Pic32prog/pic32prog.c:200-281 | A file of any printed records followed by a record that is to be refused, of any length that its count says, is not read, whatever follows |
| HexRefuse.ChangedByteRefused | Software/Pic32prog/pic32prog.c:247-257 | A file in which one byte of a printed record is changed, other than its count or its type, is not read |
| HexRefuse.BadHeaderRefused | Software/Pic32prog/pic32prog.c:214-223 | Nor is a file with a line that does not have a colon and eight digits |
| HexRefuse.BadCountRefused | Software/Pic32prog/pic32prog.c:153-157 | Nor is a file with an S-record, other than an end record, whose count is not two digits |
| Session.ProgrammedBurns | Software/Pic32prog/adapter-usbpic.c:791-823 | Programming words is programming their bytes, low byte first, each ANDed into flash |
| Session.ProgrammedAt | Software/Pic32prog/adapter-usbpic.c:791-823 | Byte k of a word, counted from the low end, goes to the word's address plus k |
| Session.MemoryWordAt | Software/Pic32prog/adapter-usbpic.c:594-635 | The words read have the bytes of memory in the same order |
| Session.Session.ProgramRow | Software/Pic32prog/adapter-usbpic.c:791-823 | Success means that exactly the row's bytes are programmed at the address; no other memory changes in any case; without an executive it fails, and with one that reports no error it succeeds |
| Session.Session.ProgramWord | Software/Pic32prog/adapter-usbpic.c:759-788 | The same for one word |
| Session.Session.VerifyData | Software/Pic32prog/adapter-usbpic.c:826-857 | Success means that there is an executive and target and host have the same checksum, and that means success unless the executive reports an error; memory is unchanged |
| Session.Session.ReadData | Software/Pic32prog/adapter-usbpic.c:594-635 | Groups of 32 words collected in eights give exactly the target's words in order, as many as make up whole groups |
| Flash.TargetChip.ProgramBlock | Software/Pic32prog/target.c:545-584 | Skipping empty rows cannot be told from programming the whole block; no address is programmed twice; success without an executive means that there was nothing to write |
| Flash.TargetChip.ProgramDevcfg | Software/Pic32prog/target.c:589-609 | The four words land in memory order; on parts with a version from 0x0500 on the call goes through the unset pointer |
| Flash.TargetChip.VerifyBlock | Software/Pic32prog/target.c:505-526 | A block passes only if the checksums agree, and then it passes unless the executive reports an error |
| Flash.BurnOnes | Software/Pic32prog/target.c:545-551 | Programming all ones changes nothing |
| Flash.BurnMore | Software/Pic32prog/target.c:556-584 | Two adjacent programmings are one |
| Program.Programmer.IsFlashBlockDirty | Software/Pic32prog/pic32prog.c:318-327 | True if and only if some byte of the block is not blank |
| Program.Programmer.IsBootBlockDirty | Software/Pic32prog/pic32prog.c:333-345 | True if and only if some byte outside the configuration words is not blank |
| Program.Programmer.MarkFlash | Software/Pic32prog/pic32prog.c:482-486 | Every block's mark says whether it is dirty |
| Program.Programmer.MarkBoot | Software/Pic32prog/pic32prog.c:487-491 | The same for boot memory |
| Program.Programmer.ProgramBlock | Software/Pic32prog/pic32prog.c:374-393 | The image's bytes for the address are programmed at its physical address |
| Program.Programmer.ProgramFlash | Software/Pic32prog/pic32prog.c:518-530 | Over blank flash, writing dirty blocks only leaves flash equal to the image over the chip's range, nothing programmed twice, nothing else changed |
| Program.Programmer.ProgramBoot | Software/Pic32prog/pic32prog.c:531-542 | The same for boot memory, except for configuration words whose block was clean |
| Program.Programmer.WriteBoot | Software/Pic32prog/pic32prog.c:531-549 | With the configuration words, boot memory equals the image, except for the bootloader entry; the unset pointer is not reached |
| Program.SignedIsDirty | Software/Pic32prog/pic32prog.c:469-472 | On MZ parts the cleared signature bit makes the block of the configuration words dirty in every image |
| Program.Programmer.VerifyFlash | Software/Pic32prog/pic32prog.c:551-564 | Succeeds only if every marked block has the image's checksum, and then unless the executive reports an error |
| Program.Programmer.VerifyBoot | Software/Pic32prog/pic32prog.c:565-578 | The same for boot memory |
| Program.Programmer.DoProgram | Software/Pic32prog/pic32prog.c:434-582 | For every image, family and option: it never calls through the unset pointer. A writing run succeeds if and only if the configuration is not missing, the version is right and, without an executive, there is nothing to write and boot memory is not used or not verified; the only other failures are errors that the executive reports. Each address is then programmed at most once and memory is the image, unless the bootloader entry meets an image that uses boot memory, when it is not. A run with verify-only changes no memory, and succeeds exactly when the marked blocks' checksums agree, under the same conditions |
| Program.HeldPasses | Software/Pic32prog/pic32prog.c:551-578 | Memory that holds the image passes the comparison |
| Program.BurstFound | Software/Pic32prog/adapter-usbpic.c:850-856 | A marked block that differs by a burst of at most 16 bits fails the comparison |
| Program.OnlyMarkedBlocks | Software/Pic32prog/pic32prog.c:551-578 | The comparison depends on the marked blocks alone |
| Program.HoldsUnless | Software/Pic32prog/pic32prog.c:543-548 | What a completed run leaves is the image if and only if the family is not the bootloader entry or boot memory is not used |
| Program.BootloaderExample | Software/Pic32prog/target.c:41-47 | An image of one configuration word, with which such a run completes and leaves the word out |
| Application.ProgramFile | Software/Pic32prog/pic32prog.c:811-818 | End to end, for every text, family and option, by addresses alone: the run has success if and only if the file is read, its last bytes for the configuration word are not all ones if it has any for boot memory, the version is right, and, for a comparison alone, it is skipped or every block with something to write has the checksum of what is asked for, or, for a writing run, the family has an executive or there is nothing it would be needed for; the only other failures are errors that the executive reports. A comparison changes no memory. After a writing run every address of the chip has the byte of the file's last store for it, or all ones if there is none, with the signature bit of MZ parts as the only difference, each address is programmed at most once, and all other memory is as before, if and only if the family is not the bootloader entry or the file has nothing for boot memory |
| Application.ImageAsked | Software/Pic32prog/pic32prog.c:95-127 | The image that is programmed has at every address the byte of the last store for it, apart from the signature bit |
| Application.ConfigByAddress | Software/Pic32prog/pic32prog.c:434-472 | The four bytes that decide whether the configuration is missing, by address |
| Application.BlankByAddress | Software/Pic32prog/pic32prog.c:482-491 | No block is dirty if and only if nothing but all ones is asked for at the chip's addresses, the configuration words aside |
| Application.AgreesByAddress | Software/Pic32prog/pic32prog.c:551-578 | The comparison of the dirty blocks is that of the blocks with something to write, by address, with what is asked for there |
| Application.DeliveredAgrees | Software/Pic32prog/pic32prog.c:551-578 | A comparison after a completed writing run finds no difference |
| Application.AddressArrives | Software/Pic32prog/pic32prog.c:518-542 | An address comes to have what is asked for in every completed run if and only if the chip has it; otherwise memory there stays what it was |
| Application.AllArriveIff | Software/Pic32prog/pic32prog.c:94-125 | All bytes of a file arrive in every completed run if and only if the chip has all its addresses, the high bit aside |
| Application.ProgramAndRead | Software/Pic32prog/pic32prog.c:584-638 | Programming a file and then reading gives at offset j the byte that the file asks for at the base's physical address plus j, from either base of flash or boot memory on, as far as the chip has them |
| Application.Connect | Software/Pic32prog/target.c:330-353 | For either wire mode, any memory and any family there is a chip that is ready to be programmed, with all the objects from the pins up made anew, for every target whose TAP is at rest with nothing waiting |
| ReadBack.ReadBlock | Software/Pic32prog/target.c:480-498 | Chunks of 256 words give exactly the block's words, for any number of words |
| ReadBack.DoRead | Software/Pic32prog/pic32prog.c:584-638 | For sizes up to 0xFFFFFC00 the loop ends despite wrap-around, and success means that the file is exactly the target's blocks, the size rounded up to 1024 |
| ReadBack.StopsIff | Software/Pic32prog/pic32prog.c:626-633 | The loop ends if and only if the size is at most 0xFFFFFC00 |
| ReadBack.BlockTranslates | Software/Pic32prog/target.c:468-475 | Translating a block's first address translates all of it if and only if the block lies in one segment |
| ReadBack.FileByte | Software/Pic32prog/pic32prog.c:626-633 | Byte j of the file is the byte of memory at base+j if no block crosses into another segment |
| ReadBack.FaithfulIff | Software/Pic32prog/pic32prog.c:626-633 | That is so for all bytes and all memories if and only if no block crosses into another segment |
| ReadBack.ReadsWhatWasWritten | Software/Pic32prog/pic32prog.c:584-638 | Reading flash or boot memory after a completed run gives the image back, through either window |
| HidQueue.HidDevice.Attach | Software/Pic32prog/hidapi/hid-libusb.c:652-677 | A report goes to the end of the list, the oldest goes if there are then 33, and the condition is signalled if and only if the list was empty |
| HidQueue.HidDevice.ReturnData | Software/Pic32prog/hidapi/hid-libusb.c:955-967 | The first report leaves the list, and as much of it as fits is copied |
| HidQueue.AttachIsSteps | Software/Pic32prog/hidapi/hid-libusb.c:652-677 | The interleaved steps do the same to the list |
| HidQueue.EveryRun | Software/Pic32prog/hidapi/hid-libusb.c:639-1163 | In every interleaving of any number of callers, closing included: mutual exclusion; reports leave in arrival order, none lost or made up; every caller has returned, with the one it is leaving with, exactly the reports that left the list for it, in order; at most 32 while the mutex is free; only a list of 33 is cut; a read fails only on shutdown with an empty list, and comes back with nothing only if it is timed, or polls an empty list; nobody sleeps after the final broadcast unless the thread failed; a single sleeper beside a report has a signal coming |
| HidQueue.OneCaller | Software/Pic32prog/hidapi/hid-libusb.c:976-1059 | What a single caller has returned is the reports in arrival order, without those dropped, discarded or still in the list |
| HidQueue.CallAlone | Software/Pic32prog/hidapi/hid-libusb.c:976-1059 | An undisturbed call of any kind: the first report if there is one, even after a shutdown, else failure after a shutdown, else nothing if it polls, else sleep |
| HidQueue.TimesOut | Software/Pic32prog/hidapi/hid-libusb.c:1013-1045 | A timed call whose time is up returns nothing, even beside a report |
| HidQueue.LosesWakeupsIff | Software/Pic32prog/hidapi/hid-libusb.c:652-677 | A caller can be stuck asleep beside a report, with no wakeup coming, if and only if there are at least two callers |
| HidQueue.LeftBehindIff | Software/Pic32prog/hidapi/hid-libusb.c:728-763 | For every run that has ended the reading thread, a caller can come to be left asleep, after emptying the list, if and only if it is asleep already or there has been no shutdown; and both mean that the thread ended on an error |
| HidQueue.FailureLeavesBehind | Software/Pic32prog/hidapi/hid-libusb.c:728-763 | Such a run exists |
| HidScan.UsesNumberedReports | Software/Pic32prog/hidapi/hid-linux.c:95-153 | For every byte string the loop ends and returns 1 if and only if some key on its path is a Report ID |
| HidScan.FindsReportIds | Software/Pic32prog/hidapi/hid-linux.c:95-153 | On every concatenation of well-formed short and long items that is exactly when some item is a one-byte Report ID; data is never taken for a prefix |
| HidScan.CutOff | Software/Pic32prog/hidapi/hid-linux.c:117-120 | A descriptor cut off inside its last item is scanned as if the item were whole |
| HidScan.OtherSizesUnnoticed | Software/Pic32prog/hidapi/hid-linux.c:103-108 | Report ID items of other sizes are not found |
| Bitbang.BitbangAdapter.Send | Software/Pic32prog/adapter-bitbang.c:144-257 | For every read flag: what is written is the operation's characters and, when the counter passes 900, a mark; an unanswered mark is awaited first; the local buffer is never exceeded |
| Bitbang.BitbangAdapter.Recv | Software/Pic32prog/adapter-bitbang.c:262-308 | The low 32 bits of the result are the reply's bits, for up to 32 of them, and for fewer than 32 the result is no more than that |
| BitbangRuns.SameClocks | Software/Pic32prog/adapter-bitbang.c:155-194 | The characters decode to exactly the TMS bits and the data-register sequence |
| BitbangRuns.SameOperations | Software/Pic32prog/adapter-bitbang.c:155-194 | They are clock for clock those of the firmware's SetMode, SendCommand, XferData and, as 33 bits, XferFastData |
| BitbangRuns.ReadsRegister | Software/Pic32prog/adapter-bitbang.c:155-194 | The programmer's reply to a reading send is exactly the register's old contents, as many bits as were sent, and the register is written |
| BitbangRuns.ReadRegister | Software/Pic32prog/adapter-bitbang.c:144-308 | A reading send and its receive, with a programmer that answers '1' or '0' for every bit it is asked for: the low 32 bits of the word are the register's contents before the send, and the register is written |
| BitbangRuns.FlagTwo | Software/Pic32prog/adapter-bitbang.c:173-191 | With read flag 2 the clocks are the same, and the reply is one bit, the register's first, while the count of bits to read grows by all of them |
| BitbangCredit.EveryRun | Software/Pic32prog/adapter-bitbang.c:196-256 | In every run in which reading sends are followed by their receives, for any limits on the sizes of sends, the counters bound what is under way |
| BitbangCredit.NeverOverflows | Software/Pic32prog/adapter-bitbang.c:196-256 | With sends of up to k characters to write and r to read, the counter never exceeds the larger of 901+k and 900+r, what is under way never exceeds that by more than three characters and the delays, and no receive meets an unanswered mark |
| BitbangCredit.SafeIff | Software/Pic32prog/adapter-bitbang.c:196-256 | For limits k and r from 6 to 83 on the characters of a send, the 1024-byte buffer is safe against d uncounted delays if and only if d and the larger of 904+k and 903+r are together at most 1024 |
| BitbangCredit.SafeDelays | Software/Pic32prog/adapter-bitbang.c:78-86 | For all sends that the interface documents that is so if and only if d is at most 37; for sends no larger than the driver's own, if and only if d is at most 78 |

## Left out

- Program.Programmer.DoProgram: progress display, and the chip's erase is one step that succeeds; its status polling is not modelled.
- Application.ProgramFile: the chip variants of the device table enter as a flash size that fits.
- Application.ProgramAndRead: only for families with an executive, as `ReadBack.DoRead`.
- Application.Connect: opening the adapter also sets the wire mode and port pins and checks the identification and the status; none of that is modelled.
- Usb.Adapter.ProcessUsbCommands: the commands that read the device identification, the status and memory, enter and leave programming or serial execution mode, poll, choose the wire mode, and set ports and lights are not modelled; packets with them are excluded.
- Usb.Adapter.PeResponses: counts beyond 15, which do not fit the packet, and more words than the executive has stored.
- Hex.Reader.ReadSrec: a record whose digits go beyond the buffer of 256 characters is given an outcome of its own.
- Hex.Reader.ReadHex: a record longer than 16 bytes is given an outcome of its own, because it does not fit the original's buffer.
- HexPrint.SrecRoundTrip: records whose address and data exceed 124 bytes do not fit one line of 255 characters and are not claimed.
- Bitbang.BitbangAdapter.Recv: replies longer than 32 bits, for which the original shifts an `int` too far, are not claimed; no caller asks for them.
- BitbangCredit.EveryRun: the discipline that a reading send is followed by its receive is assumed, as all the driver's callers keep to it; one reading send is never received, but it is the last before the program exits (`Software/Pic32prog/adapter-bitbang.c:1165`); read flag 2, which a constant switches off, does not occur.
- Executive.ReadWord: entering serial execution is not modelled; the processor is assumed to be in debug mode and served by the probe.
- HidQueue.EveryRun: errors of the pthread calls, thread cancellation and the freeing of the device are not modelled.
- ReadBack.DoRead: only for families with an executive; without one, which means the bootloader entry, the original reads word by word.
- ReadBack.ReadBlock: the same, and the caller's buffer must have room for whole groups of 32 words, because the original writes them.
- Session.Session.ReadData: the same.
- Session.Session.ProgramRow: what memory contains at the row's addresses when the executive reports an error.
- Firmware.Port.GetPeResponse: the null data pointer reads some low memory, of any contents; the data register ends up with it.
- Firmware.Port.XferFastData: PrAcc is returned beside the response, and put into reply byte 5 after the exchange instead of during it.
- The code of the executives themselves, except for the checksum routines of the MX3 one.
- The switch between the two TAP controllers of the target; branches in delay slots; address translation other than the fixed segments.
- USB, HID and serial transports, enumeration, delays, voltages, packet formats and scripts of the PICkit2, the other adapters, printing of configuration words, command-line parsing.
