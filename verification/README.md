# JULIUS OS: a verified model of its user-space library, serial driver, init process and panic parser

JULIUS OS is a small XNU-based system. This project models the parts of it that compute something, with
their C, C++ and Python edge cases, and proves what they keep over every call and every run.

| Files | What they model |
|---|---|
| `Machine.dfy`, `Options.dfy` | the 64-bit types, wrapping arithmetic, C's division, the `ALIGN` macro |
| `CStrings.dfy`, `Memory.dfy` | the byte memory of a process and `memcpy`, `memset`, `memcmp`, `strlen`, `strcmp`, `strcpy` on it |
| `HeapModel.dfy` | the region-extending bump heap on unbounded integers: safety and space over every run |
| `Heap.dfy` | the heap as the code runs it, three wrapping 64-bit pointers over the byte memory, proved to follow that model |
| `Numerals.dfy`, `NumberText.dfy`, `Console.dfy` | digits, their texts and readers, and the two printers that fill a buffer backwards |
| `Baud.dfy` | the baud-rate divisors |
| `Pl011.dfy` | the PL011 UART: its registers and FIFOs, and what it does of its own accord between two accesses |
| `Discipline.dfy` | the register discipline over a whole trace, as a property of positions and as a monitor |
| `Newlines.dfy`, `SerialCalls.dfy`, `BusyWait.dfy`, `Registers.dfy` | what each driver call does to the registers, what every run of calls keeps, and what the registers hold after it |
| `Witnesses.dfy` | possible histories of driver and device in which the driver's time-outs bite |
| `Driver.dfy` | the driver, run against the UART |
| `MachMessages.dfy`, `InitProcess.dfy`, `Network.dfy` | header-only messages, PID 1's boot and service loop, and networks of such loops |
| `Text.dfy`, `Regex.dfy` | the string operations and the backtracking `re` engine that the panic parser relies on |
| `Frames.dfy`, `Kexts.dfy`, `PanicLog.dfy` | the frame and kext patterns, and the line loop against a reading of the whole log |
| `LogLayout.dfy`, `PrintedLogs.dfy` | what each line does to that reading, what is taken from a log laid out in the usual way, and what is read back of printed frames |

The kernel appears as the answers it gives: a memory request is refused or granted (unmapped pages of
user space, zero-filled, not at address 0), a port call returns a code, a receive yields a message or an
error. Every statement holds for all answers. The UART is a device that may send, finish a shift or
receive a word any number of times between two accesses; a `Uart` object records what happened as a
history, and `Possible` says which histories a device can have. `Tick` and `Settle` choose freely.

Where the code differs from what is written about it, the model follows the code:

- `JuliusSerial.cpp:51-52` scales the remainder by 64 although it is already a remainder over `16 * baud`;
  the factor that gives FBRD is 4. At 115200 the code programs 21, `docs/pexpert.md:124-125` says 1.
  `Baud.CodedFractionAgrees` says for which rates the word it computes is the intended one,
  `Baud.HeldPairIsNearest` for which rates what the 16 and 6 bits of the registers hold of it is the nearest
  divisor all the same.
- `JuliusSerial.cpp:40-43` waits for a transmission to complete with the UART already off. If a byte is
  still queued the wait can only run to its limit (`BusyWait.QueuedWaitTimesOut`), which happens in the run
  start, putChar, setBaud (`Witnesses.ByteQueuedAtHwInit`).
- `JuliusSerial.cpp:165-171` polls once more after its count is used up, but then drops the character
  even if that poll saw room (`SerialCalls.SentIffRoomInTime`; `Witnesses.LateRoomIsDropped` is a case).
- `io.c:53` reserves 18 bytes for "0x", 16 digits and a NUL, which take 19 (`Console.Terminal.PutHex`).
- `mem.h:17` says that `malloc` returns NULL on failure; if the very first region is refused the code
  panics instead, and in no other case (`HeapModel.MallocPanics`, `HeapModel.RunPanics`).
- `mem.c:88-92` wraps for sizes above 2^63 - 16: malloc then returns pointers to blocks that it has not set
  aside (`HeapImpl.ServesUpTo`), be it on top of live ones (`HeapImpl.LiveBlockReturnedTwice`).
- `mem.c:153-157` never ends on a destination that begins inside the string
  (`Memory.OverlappingCopyNeverEnds`).
- `panic-parse.py:114-120` keeps a line that starts a panic twice (`PanicLog.StartIsKeptTwice`).

## Model

| member | source | states |
|---|---|---|
| `HeapModel.SpaceBound` | libc/src/mem.c:85-103 | over every run from the empty heap, the bytes granted by the kernel are at most twice the aligned bytes handed out, plus the larger of 1 MiB and what was handed out of the current region |
| `HeapModel.FactorTwoIsReached` | libc/src/mem.c:89-101 | the factor two cannot be improved: for every n a run whose granted bytes are twice those handed out but for 32 bytes in each two regions |
| `HeapModel.EveryRunIsSound` | libc/src/mem.c:85-115 | after any calls with any refusals every block handed out is 16-aligned, inside one granted region, and disjoint from every other block, and none is ever forgotten |
| `HeapModel.MallocReadySound` | libc/src/mem.c:88-102 | on an initialised heap the returned block is aligned, backed by one region and disjoint from all earlier ones; a refused extension returns NULL with the heap exactly as it was |
| `HeapModel.AddRegionKeepsSound` | libc/src/mem.c:91-98 | abandoning the tail of a region for a fresh one disturbs no block |
| `HeapModel.ServedInPlace` | libc/src/mem.c:88-102 | an aligned request is served at the bump pointer, with no new region, exactly when it fits into what is left; otherwise the kernel decides |
| `HeapModel.ExtensionLeaves` | libc/src/mem.c:89-102 | the block that makes the heap extend stands at the start of the new region, and the next request is served right after it, whatever the kernel answers, exactly when both are within 1 MiB, or within twice a block of 1 MiB or more |
| `HeapModel.FirstRegionHolds` | libc/src/mem.c:67-102 | the first region has room for 1 MiB, and for no more |
| `HeapModel.MallocPanics` | libc/src/mem.c:75-86 | malloc panics exactly when the heap is not initialised and its first region is refused; the empty heap is a case |
| `HeapModel.RunPanics` | libc/src/mem.c:67-98 | a run panics exactly when it begins without a heap and the first call that needs one has the first region refused; no later refusal stops the process |
| `HeapImpl.PlanIsExactUpTo` | libc/src/mem.c:88-92 | the wrapping decision and lengths are the unbounded ones exactly for sizes up to 2^63 - 16 |
| `HeapImpl.FirstWrappingRequest` | libc/src/mem.c:88-92 | at size 2^63 - 15 the aligned size is 2^63 and the extension length is 0 |
| `HeapImpl.ServesUpTo` | libc/src/mem.c:88-102 | the limit is one of safety: the new bump pointer, or the new region, has room for the request exactly for sizes up to 2^63 - 16 |
| `HeapImpl.LiveBlockReturnedTwice` | libc/src/mem.c:88-102 | after malloc(32), malloc(2^64 - 32) moves the bump pointer back, and the next malloc(32) returns the live block again |
| `Machine.AlignExact` | libc/include/julius/types.h:85 | the macro rounds up to the next multiple of 16 exactly when its addition does not wrap |
| `Machine.MaskClearsLowBits` | libc/include/julius/types.h:85 | the bit mask of the macro is subtraction of the remainder |
| `HeapImpl.Heap64.Malloc` | libc/src/mem.c:85-103 | the three-pointer heap follows the model for every request up to 2^63 - 16, and the run of its calls goes on; for every size at all, the new pointers and the result are those of the wrapping arithmetic, and no mapped byte changes |
| `HeapImpl.Heap64.SpaceIsBounded` | libc/src/mem.c:85-103 | the space bound holds of every three-pointer heap that the calls can reach |
| `HeapImpl.Heap64.MemInit` | libc/src/mem.c:67-83 | the first region becomes the heap, or the process panics with the heap unchanged |
| `HeapImpl.Heap64.Calloc` | libc/src/mem.c:110-115 | the block of the 64-bit product is all zero, and every byte mapped before outside it is unchanged, older blocks being outside it; if malloc returns a pointer for a product above 2^63 - 16, the block ends outside user space |
| `HeapImpl.ProductIsExact` | libc/src/mem.c:111 | the block has the size asked for exactly when the product fits 64 bits |
| `HeapImpl.Heap64.FreshBlock` | libc/src/mem.c:100-102 | a block just returned is mapped and apart from every older one |
| `Memory.ByteMemory.Memcpy` | libc/src/mem.c:125-130 | the loop is the forward byte-by-byte copy in one memory |
| `Memory.CopyWithoutOverlap` | libc/src/mem.c:125-130 | if the destination is not above the source, or the ranges are disjoint, it receives the old source |
| `Memory.CopyWithOverlap` | libc/src/mem.c:125-130 | if the destination is gap bytes above the source, with gap less than the length, byte i is old source byte i mod gap |
| `Memory.CopyFrame` | libc/src/mem.c:125-130 | nothing outside the destination changes |
| `Memory.ByteMemory.Memset` | libc/src/mem.c:132-136 | every byte of the range becomes the low eight bits of the argument and no other byte changes |
| `Memory.ByteMemory.Memcmp` | libc/src/mem.c:138-146 | the difference at the first position where the blocks part, or 0 |
| `Memory.BlocksOfMemoryPart` | libc/src/mem.c:138-146 | that is the difference of the two bytes where the blocks part, be they the last ones or after a NUL |
| `Memory.ByteMemory.Strlen` | libc/src/mem.c:119-123 | the offset of the first NUL |
| `Memory.ByteMemory.Strcmp` | libc/src/mem.c:148-151 | the difference at the first position where the strings, NULs included, part |
| `CStrings.StrDiffZeroIffEqual` | libc/src/mem.c:148-151 | strcmp is 0 exactly for equal strings |
| `CStrings.StrDiffAntisymmetric` | libc/src/mem.c:148-151 | swapping the arguments negates the result |
| `CStrings.StrDiffTransitive` | libc/src/mem.c:148-151 | not-above is transitive, so strcmp is a total order |
| `Memory.StrcmpIsMemcmp` | libc/src/mem.c:138-151 | strcmp returns what memcmp returns over one byte more than the shorter string |
| `Memory.ByteMemory.Strcpy` | libc/src/mem.c:153-157 | unless the destination begins inside the string above the source, the loop is the forward copy of the string with its NUL, and stops there |
| `Memory.OverlappingCopyNeverEnds` | libc/src/mem.c:153-157 | and if it does, the loop never reads a NUL, however far it gets |
| `Memory.StringReceived` | libc/src/mem.c:153-157 | after the copy the destination is the old source string, of the same length, overlap below included |
| `Memory.StringCopied` | libc/src/mem.c:148-157 | if the ranges are disjoint, source and copy are then the same string, and strcmp gives 0 |
| `Console.Terminal.PutHex` | libc/src/io.c:51-67 | every store is inside the buffer exactly for numbers below 2^60, and then the text is "0x" and the minimal digits |
| `NumberText.HexRoundTrip` | libc/src/io.c:51-67 | reading hex text gives the number back, and the text is canonical |
| `NumberText.HexCanonicalIsText` | libc/src/io.c:51-67 | every canonical hex text is the text of the number it denotes |
| `NumberText.HexTextGrows` | libc/src/io.c:60-65 | hex text is 0x and then one digit after the other, the last one for the rest by 16 |
| `NumberText.HexTextIsLowerCase` | libc/src/io.c:52-65 | made of 0 to 9 and a to f |
| `Console.Terminal.PutDec` | libc/src/io.c:69-82 | every store is inside the buffer for every argument, and one NUL-terminated text is written |
| `Console.DecOutputReadsBack` | libc/src/io.c:69-82 | that text denotes the argument exactly when the argument is not -2^63 |
| `Console.LeastNumberOutput` | libc/src/io.c:69-82 | for -2^63 a minus sign and 19 characters that mirror its digits about the character 48 |
| `NumberText.DecRoundTrip` | libc/src/io.c:69-82 | reading decimal text gives the number back; a minus sign exactly for negative numbers; no leading zero |
| `NumberText.DecCanonicalIsText` | libc/src/io.c:69-82 | every canonical decimal text is the text of the number it denotes |
| `NumberText.DecTextGrows` | libc/src/io.c:75-80 | decimal text is one digit after the other, the last one for the rest by 10, with a minus sign before those of a negative number |
| `NumberText.DecInjective` | libc/src/io.c:69-82 | distinct numbers print differently |
| `Numerals.DigitsAreCanonical` | libc/src/io.c:60-63 | a numeral without a leading zero is the digits of its value, and no other is |
| `Numerals.DigitCount` | libc/src/io.c:60-63 | k digits suffice exactly for numbers below the k-th power of the base |
| `Console.Terminal.PutsFd` | libc/src/io.c:33-43 | one write request with the bytes before the first NUL; none for a null string |
| `Baud.CodedPair` | kexts/JuliusSerial/src/JuliusSerial.cpp:49-52 | the coded pair, for every rate that the code can divide by: the quotient and the remainder of 24000000 by 16 times the low 28 bits of the rate, and 64 times the remainder over the rate, rounded half up |
| `Baud.FactorFourIsWithinHalf` | kexts/JuliusSerial/src/JuliusSerial.cpp:49-52 | with factor 4 the divisor pair is within half of 1/64 of the exact divisor, for all rates from 23 to 1500000 |
| `Baud.FactorFourIsNearest` | kexts/JuliusSerial/src/JuliusSerial.cpp:49-52 | and no other pair is nearer |
| `Baud.IbrdInRange` | kexts/JuliusSerial/src/JuliusSerial.cpp:50 | the integer divisor is from 1 to 65217 for those rates |
| `Baud.FactorFourCarry` | kexts/JuliusSerial/src/JuliusSerial.cpp:50-54 | exactly when rounding reaches 64, and that carrying it into IBRD gives the same divisor within the register |
| `Baud.CodedFractionAgrees` | kexts/JuliusSerial/src/JuliusSerial.cpp:51-52 | the word computed for FBRD is the intended fraction exactly when 64 times the remainder is below half the rate |
| `Baud.CodedFractionFits` | kexts/JuliusSerial/src/JuliusSerial.cpp:51-54 | and fits the register's six bits exactly when it rounds to less than 64 |
| `Baud.HeldPairIsNearest` | kexts/JuliusSerial/src/JuliusSerial.cpp:50-54 | what the 16 bits of IBRD and the 6 bits of FBRD hold of the coded pair is the nearest divisor exactly when the coded fraction k has 15 k within 7 of 1024 (k / 64), or within 8 and rounded towards it |
| `Baud.NearestByAccident` | kexts/JuliusSerial/src/JuliusSerial.cpp:50-54 | at 36 the code computes 683, of which the register keeps 43, the nearest fraction |
| `Baud.NothingHeld` | kexts/JuliusSerial/src/JuliusSerial.cpp:50-54 | at 9600 it computes 256, of which the register keeps 0, where 16 is the nearest |
| `Baud.DefaultRate` | kexts/JuliusSerial/include/JuliusSerial.h:43-48 | at 115200 the code gives 13 and 21, which the registers hold; the nearest divisor is 13 and 1 |
| `Discipline.MonitorIsDiscipline` | kexts/JuliusSerial/src/JuliusSerial.cpp:36-64 | the monitor accepts a trace exactly when every position obeys the rules for divisors, line control, enabling and data |
| `SerialCalls.EveryRunIsDisciplined` | kexts/JuliusSerial/src/JuliusSerial.cpp:36-191 | in every run of driver calls IBRD, FBRD and LCRH are written only with the UART off and in order, it is switched on only after all three, and data is written only right after a poll that saw room |
| `SerialCalls.EveryRunKeepsItsBytes` | kexts/JuliusSerial/src/JuliusSerial.cpp:162-186 | so no byte is written to a full transmit FIFO, whatever the device does in between, and the bytes written are those sent plus those queued, in order |
| `Discipline.NoByteLost` | kexts/JuliusSerial/src/JuliusSerial.cpp:154-173 | the same for any disciplined trace of any possible history of the device |
| `SerialCalls.QuietWhileUnmapped` | kexts/JuliusSerial/src/JuliusSerial.cpp:72-109 | before the first successful start no register is touched |
| `SerialCalls.QuietAfterStop` | kexts/JuliusSerial/src/JuliusSerial.cpp:128-142 | in every run, nor after a stop until the next successful start; a stop of a started driver ends with the UART being switched off |
| `SerialCalls.SentIffRoomInTime` | kexts/JuliusSerial/src/JuliusSerial.cpp:162-173 | putChar polls register 0x18 up to the first poll that sees room, at most 100001 times, and then writes the character to register 0 if one of the first 100000 saw room, and nothing otherwise |
| `Witnesses.LateRoomIsDropped` | kexts/JuliusSerial/src/JuliusSerial.cpp:165-171 | from any device whose transmitter is on and whose FIFO is full, a possible history in which poll 100001 sees room and the character is dropped |
| `SerialCalls.PutStringWrites` | kexts/JuliusSerial/src/JuliusSerial.cpp:181-186 | what putString writes is an in-order part of the newline expansion, all of it exactly when no character times out, and then the string can be read back from it |
| `Newlines.ExpandGrows` | kexts/JuliusSerial/src/JuliusSerial.cpp:181-186 | the expansion puts a 13 before each 10 and nothing else |
| `Newlines.CollapseExpand` | kexts/JuliusSerial/src/JuliusSerial.cpp:181-186 | dropping the carriage return before each line feed undoes the expansion |
| `Newlines.ExpandInjective` | kexts/JuliusSerial/src/JuliusSerial.cpp:181-186 | distinct strings have distinct expansions |
| `Registers.HwInitAccesses` | kexts/JuliusSerial/src/JuliusSerial.cpp:36-64 | hw_init, by register offset: the UART off; polls up to the first that does not see it busy, or 100001; the words received, each read after a poll that saw one, at most the FIFO depth and one, and a poll that saw none; and six writes with the coded divisors, 0x70, 0, 0x7FF and 0x301 |
| `Registers.HwInitConfigures` | kexts/JuliusSerial/src/JuliusSerial.cpp:49-64 | whatever the device was and does meanwhile, hw_init leaves it with the low 16 and 6 bits of the coded divisors, line control 0x70 and control 0x301 |
| `Registers.ConfiguredBits` | kexts/JuliusSerial/include/JuliusSerial.h:33-40 | which is 8-bit words and FIFOs, without break, parity, second stop bit or stick parity; and UART, transmitter and receiver on, and nothing else |
| `Registers.SetBaudConfigures` | kexts/JuliusSerial/src/JuliusSerial.cpp:188-191 | after any run that ends in setBaud the device is configured for that rate |
| `Registers.StartConfigures` | kexts/JuliusSerial/src/JuliusSerial.cpp:113-117 | after any run that ends in a successful start the device is configured for 115200; the start switches the UART off first and writes an in-order part of its banner's expansion |
| `Registers.StopSwitchesOff` | kexts/JuliusSerial/src/JuliusSerial.cpp:128-142 | after any run that ends in a stop of a started driver the control register is 0, and an in-order part of the banner's expansion was written last |
| `Pl011.FlagBits` | kexts/JuliusSerial/include/JuliusSerial.h:28-31 | full, empty and busy are bits 5, 4 and 3 of the flag register, whatever the other bits are |
| `Pl011.ControlBits` | kexts/JuliusSerial/include/JuliusSerial.h:33-40 | FIFO enable is bit 4 of the line control; receive, transmit and UART enable are bits 9, 8 and 0 of the control register |
| `Registers.HwInitIsNearest` | kexts/JuliusSerial/src/JuliusSerial.cpp:49-64 | for the rates from 23 to 1500000 the device is left with the right integer part, and with the nearest divisor exactly under the condition on the coded fraction |
| `BusyWait.QueuedWaitTimesOut` | kexts/JuliusSerial/src/JuliusSerial.cpp:37-43 | if a byte is queued when the UART is switched off, the busy wait makes all of its 100001 polls |
| `Witnesses.ByteQueuedAtHwInit` | kexts/JuliusSerial/src/JuliusSerial.cpp:36-43 | from any idle device, a possible history of start, putChar and setBaud in which the byte is still queued when the UART is switched off, all 100001 polls are made, and the byte is there after them |
| `BusyWait.EmptyWaitCanEnd` | kexts/JuliusSerial/src/JuliusSerial.cpp:37-43 | and if none is, one poll can be enough |
| `Driver.JuliusSerialDriver.EmitChar` | kexts/JuliusSerial/src/JuliusSerial.cpp:162-173 | the poll loop ends, and its accesses are those of a putChar |
| `Driver.JuliusSerialDriver.DrainReceiver` | kexts/JuliusSerial/src/JuliusSerial.cpp:45-47 | with reception off the drain loop ends after at most the words queued and one under way |
| `Driver.JuliusSerialDriver.HwInit` | kexts/JuliusSerial/src/JuliusSerial.cpp:36-68 | off, wait, drain of at most FIFO depth + 1 words, then the six configuration writes in order |
| `Driver.JuliusSerialDriver.Start` | kexts/JuliusSerial/src/JuliusSerial.cpp:72-124 | succeeds exactly when the super class, the descriptor and the mapping do, and the run so far stays a run |
| `Driver.JuliusSerialDriver.Stop` | kexts/JuliusSerial/src/JuliusSerial.cpp:128-142 | says goodbye, switches the UART off, and unmaps the registers |
| `Driver.JuliusSerialDriver.PutChar` | kexts/JuliusSerial/src/JuliusSerial.cpp:162-173 | exactly the character, or nothing, is added to the bytes written |
| `Driver.JuliusSerialDriver.GetChar` | kexts/JuliusSerial/src/JuliusSerial.cpp:175-179 | one poll, and exactly if it sees a word one read, whose low eight bits are the character; a word that was queued before is it |
| `Driver.JuliusSerialDriver.PutString` | kexts/JuliusSerial/src/JuliusSerial.cpp:181-186 | the characters that went through, in order, are added to the bytes written |
| `Driver.JuliusSerialDriver.SetBaud` | kexts/JuliusSerial/src/JuliusSerial.cpp:188-191 | a reconfiguration keeps the run a run |
| `Driver.JuliusSerialDriver.ValidIsDisciplined` | kexts/JuliusSerial/src/JuliusSerial.cpp:36-191 | every state the driver can reach has a disciplined trace and has lost no byte |
| `InitProcess.Init.JuliusStart` | init/src/main.c:159-196 | how the boot ends for every kernel answer; the loop is reached exactly when the heap, the port and its send right all came; the self-test cannot fail, and leaves a string of 63 letters J |
| `InitProcess.Init.SetupBootstrapPort` | init/src/main.c:51-93 | which failures panic, which one does not, and when the bootstrap port is recorded |
| `InitProcess.EveryRunIsWellOrdered` | init/src/main.c:51-145 | the first call asks for 1 MiB; any receive is on a port registered as the bootstrap port before; what is registered was allocated and given a send right before, and nothing is registered twice; any send is the pong to the port that the ping received just before it names; nothing follows a failed allocation or send right; and a boot that succeeds does register its port |
| `InitProcess.Init.ServiceLoop` | init/src/main.c:109-147 | the reused buffer is dispatched only after a successful receive |
| `InitProcess.LoopReceivesEach` | init/src/main.c:114-125 | the loop receives once for each answer of the kernel, errors included |
| `InitProcess.LoopSendsReplies` | init/src/main.c:114-145 | whatever errors come between, the sends are the replies to the messages received, in order |
| `MachMessages.RepliesMatch` | libc/src/mach.c:87-104 | one reply, in order, for each message with id 0x4A4C0001 and a reply port, and no other: its remote port is that port, its id 0x4A4C8001, its bits 19, its size 24, its local and voucher ports 0 |
| `MachMessages.RepliesAreFinal` | init/src/main.c:132-144 | no reply can itself cause a reply |
| `InitProcess.Init.SendSimple` | libc/src/mach.c:87-104 | whatever the local struct held, the message sent has bits 19, size 24, the given port and id, and no other ports |
| `InitProcess.LeftoversAreNotAnswered` | init/src/main.c:112-124 | what a failed receive leaves in the reused buffer, and its error code, make no difference to what is sent |
| `Network.EveryRunEnds` | init/src/main.c:109-145 | a network of service loops makes at most twice as many deliveries as there are pings in flight plus one for each other message, whatever is lost |
| `Network.DeliveriesAreBounded` | init/src/main.c:109-145 | in fact no more deliveries than flights and answers to them, whatever is lost |
| `Network.OnlyAnswersAreSent` | init/src/main.c:109-145 | and nothing is ever in the air but flights of the start and answers to flights that were heard |
| `Network.OrderDoesNotMatter` | init/src/main.c:109-145 | any two lossless runs to silence deliver the same messages and equally many |
| `Network.RunConserves` | init/src/main.c:109-145 | what has been heard and what is still to come is constant over every lossless run |
| `Network.AnswerIsWhatTheLoopSends` | init/src/main.c:132-144 | a delivery in the network is a round of the service loop: a ping that names a port is answered to that port, with no reply port, and nothing else is |
| `Regex.EngineIsExhaustive` | tools/panic-parse.py:46-49 | backtracking finds a match exactly when one exists |
| `Regex.MatchDivides` | tools/panic-parse.py:46-49 | the positions it finds divide the string among the items, an optional part being there whole or not at all |
| `Regex.MatchIffDivisible` | tools/panic-parse.py:46-49 | and there is a match exactly when the string can be so divided |
| `Regex.SearchFindsTheFirst` | tools/panic-parse.py:138 | a search finds the first position with a match |
| `Frames.EngineIsScan` | tools/panic-parse.py:47 | on a stripped line the frame pattern and a one-pass scan agree, on the match and on both groups |
| `Frames.MatchFrameIsFrame` | tools/panic-parse.py:132-136 | a line that is a frame matches, with its address and its stripped symbol |
| `Frames.MatchedIsFrame` | tools/panic-parse.py:132-136 | a line that matches is a frame: 8 to 16 hex digits, a colon, the shortest non-empty symbol, and nothing or one offset |
| `Frames.RenderRoundTrip` | tools/panic-parse.py:47 | a printed frame matches exactly when its address has 8 to 16 digits; then the address comes back, and the symbol exactly when an offset was printed or the symbol does not end in one; white space around the colon does not matter |
| `Frames.NoSymbolNoFrame` | tools/panic-parse.py:47 | a line that ends with the colon is no frame |
| `Kexts.FoundIsFirstKext` | tools/panic-parse.py:137-140 | what is found is a whole name, an at sign and a whole base in hex, and no such entry begins before it |
| `Kexts.FirstKextIsFound` | tools/panic-parse.py:137-140 | and the first entry of any line is what is found |
| `Kexts.KextRoundTrip` | tools/panic-parse.py:49 | a printed entry comes back whole, whatever follows it and whatever without a c stands before it |
| `Kexts.KextNeedsItsParts` | tools/panic-parse.py:49 | and without a name, white space on both sides of the at sign, or a digit there is no entry |
| `PanicLog.ParsePanicLog` | tools/panic-parse.py:103-143 | the one-pass loop computes the four lists that the reading of the whole log, its lines stripped at the end, defines |
| `PanicLog.LineEndsDoNotMatter` | tools/panic-parse.py:110-111 | white space at the ends of the lines, newlines included, makes no difference, and a line without any is taken as it is |
| `Text.StripTakesWhiteSpace` | tools/panic-parse.py:111-132 | stripping takes all the white space around a text and leaves the text alone |
| `Text.StripParts` | tools/panic-parse.py:111-132 | and takes nothing else |
| `PanicLog.StartIff` | tools/panic-parse.py:114 | a line starts a panic exactly when it has "panic(" or "kernel panic" in it, in any case of letters |
| `PanicLog.HeaderIff` | tools/panic-parse.py:126 | a line is a header exactly when it has "Backtrace" or "backtrace" in it |
| `PanicLog.KnownPanicIsFound` | tools/panic-parse.py:51-69 | each of the ten entries is found in whatever surrounds it, in any case of letters, unless an earlier one is there as well |
| `LogLayout.StartLine` | tools/panic-parse.py:113-128 | a start is kept twice and explained once, and closes the section unless it is a header as well |
| `LogLayout.HeaderLine` | tools/panic-parse.py:118-128 | a header opens a section, and is described unless one was open |
| `LogLayout.PlainLine` | tools/panic-parse.py:118-123 | any other line outside a section is described once a panic has started, and nothing else |
| `LogLayout.SectionLine` | tools/panic-parse.py:131-140 | any other line in a section that is not blank gives its frame and its kext, and nothing else |
| `LogLayout.BlankLine` | tools/panic-parse.py:142-143 | a blank line in a section closes it exactly when the log has had a frame |
| `LogLayout.LayoutIsRead` | tools/panic-parse.py:103-143 | from a log laid out in parts, the parser takes exactly the parts: start, description, header and what follows the backtrace; their explanations; and the frames and kexts of the backtrace |
| `PrintedLogs.PrintedBodyIsRead` | tools/panic-parse.py:131-136 | the lines of a printed backtrace, indented or not, give its frames, all of them and in order |
| `PrintedLogs.PrintedAddressIsRead` | tools/panic-parse.py:47 | an address printed by the library's hex printer is read back exactly when it is at least 0x10000000; below that it has fewer than eight digits |
| `PanicLog.SectionStep` | tools/panic-parse.py:113-143 | the flag of the loop is "the latest header has not been closed by a start, or by a blank line after any frame of the log" |
| `PanicLog.StartIsKeptTwice` | tools/panic-parse.py:113-120 | a line that starts a panic is kept twice in a row, wherever it stands |
| `PanicLog.FindKnownPanic` | tools/panic-parse.py:65-69 | the first entry of the table that the text mentions, whatever the case of letters |

## Left out

- `HeapImpl.Heap64.Malloc`: after a request above 2^63 - 16 the heap is no longer said to be valid, because its blocks need not be sound any more (`HeapImpl.LiveBlockReturnedTwice`); no call is modelled after it.
- `HeapImpl.Heap64.Calloc`: nothing is said of what the memset does to a block that ends outside user space.
- `HeapImpl.Heap64.MemInit`: only on a heap that is not initialised; its header says that it is called once.
- `Console.Terminal.PutDec`: -2^63 is negated as two's complement hardware does it; C leaves it undefined.
- `Console.Terminal.PutHex`: nothing is said of what follows a store outside the buffer.
- `Memory.ByteMemory.Strcpy`: a destination that begins inside the string above the source is excluded, because there the loop does not end by itself (`Memory.OverlappingCopyNeverEnds`).
- `Driver.JuliusSerialDriver.Start`: only on a driver that is not started; the device tree and the registry are not modelled.
- `Driver.JuliusSerialDriver.SetBaud`: only while the registers are mapped and for rates that do not make the code divide by 0.
- `Driver.JuliusSerialDriver.PutString`: the string is the sequence of bytes before its NUL.
- `InitProcess.Init.ServiceLoop`: the endless loop is modelled through any finite number of its rounds.
- `PanicLog.FindKnownPanic`: letter case is folded for ASCII letters only; an explanation is represented by its place in the table.
- The inside of the kernel: trap numbers and wrappers, the lifetime of port rights, message trailers, the virtual memory system.
- The console messages of init and the driver's log, except for the two banners and the printers themselves.
- Partial writes: the printers look at no answer of `write`, so only the requests are modelled.
- The UART's interrupts, break and modem control, and the flushing of FIFOs that LCR_H can do; the driver uses none of them.
- The 16550 port, symbolization, the report, colours and the command line of the panic parser, and the shell tools.
