# Mc68k microcontroller wrapper in Dafny

This project models the core of `mc68k::Mc68k`. That class wraps a 68k
execution core into a small microcontroller. The model covers four parts:

- **The interrupt controller.** There are eight FIFO queues of pending
  interrupt vectors, one per priority level. The level driven onto the
  execution core's interrupt pin is always the highest level from 1 to 7
  that has a non-empty queue, and 0 when none does. The acknowledge callback
  hands out the oldest vector of a level. When the level is empty, it hands
  out the autovector instead.
- **The peripheral bus router.** It masks every peripheral address and
  gives it to the first block that claims the result, in the order GPT,
  SIM, QSM. An address no block claims reads as 0, and a write to it is
  dropped.
- **The step driver `exec`.** It runs one instruction. While the
  instruction runs, the execution core calls back into the object: it
  acknowledges interrupts and writes peripheral registers. Then `exec` adds
  the cycles the instruction took to a 64-bit counter, and advances GPT,
  SIM and QSM by the same cycles, in that order.
- **The address walk of `dumpAssembly`.** It produces one line per decoded
  instruction, followed by a blank line after every `rts`, `bra ` or `jmp `.

Modules:

- `Types` (`types.dfy`) holds the machine integer ranges and `Option`.
- `Interrupts` (`interrupts.dfy`) is the interrupt controller as values:
  `Ipl`, `Inject` and `Acknowledge`, and the lemmas about them.
- `Peripherals` (`peripherals.dfy`) holds the three blocks, kept abstract.
  Each block has a range test and reads, both supplied as a `Behaviour`.
  The range test is a fixed predicate of the address. Reads are functions
  of the block's event history and the address. Every write and step a
  block receives is appended to its own history, and also to a log that
  the three blocks share, so the order of calls across blocks is recorded.
- `Mc68k` (`mc68k.dfy`) is the class `Mc68k`. Its methods change the
  queues, the pin, the cycle counter and the blocks in place. What each
  method is proved against:
  - `InjectInterrupt`, `ReadIrqUserVector` and `RaiseIpl` against `Interrupts.Inject`, `Interrupts.Acknowledge` and `Interrupts.Ipl`;
  - `HasPendingInterrupt` against membership of the vector in the level's queue;
  - `Read8`, `Read16`, `Write8` and `Write16` against the router's `Claimant`, and the writes also against the shared log;
  - `Exec` against `AfterAcknowledgements` for the queues and the pin, against `BusCalls` and `BusDelivered` for the log and the histories, and against `Accounted` for the counter;
  - `GetCycles` against `Accounted`: the sum of the deltas in the blocks' histories.

  The class invariant `Valid()` says:
  - the three blocks are distinct objects, each knows which block it is, and all share the object's log;
  - there are eight levels, and the pin shows their IPL (interrupt priority level);
  - every block has been advanced by the same deltas, and the counter is their sum modulo 2^64.
- `Disassembly` (`disassembly.dfy`) holds `DumpAssembly`, a loop proved
  against the walk function `Walk`, and the lemmas about the walk.

The execution core is not part of this model. The cycles one instruction
takes are a parameter of `Exec`. So are the callbacks the core makes while
the instruction runs: a sequence of `CoreAction`s, each an acknowledge of
a level or a byte or word write on the bus. The interrupt pin (`m68k_set_irq`) is the
field `irq`. The disassembler is a parameter of `DumpAssembly`: a function
from an address to a text and a length.

## Model

| member | source | states |
|---|---|---|
| Interrupts.Ipl | mc68k.cpp:189-203 | The level raiseIPL asserts is below 8. When it is positive its queue is non-empty, and every level above it is empty. |
| Interrupts.Inject | mc68k.cpp:91-95 | The reference definition of injectInterrupt. Its result always satisfies the invariant: eight queues and a pin showing their IPL. |
| Interrupts.Acknowledge | mc68k.cpp:114-128 | The reference definition of readIrqUserVector. It answers the autovector exactly when the level is empty, and it keeps the invariant. |
| Interrupts.HighestPending | mc68k.cpp:192-200 | The downward scan from `top` stops at a level with a non-empty queue, or at 0. Every level it passed over, above the one it returns, is empty. |
| Interrupts.IplIsHighestNonEmpty | mc68k.cpp:189-203 | The pin level is `l` if and only if `l` is 0 or has a non-empty queue, and every level above `l` is empty. |
| Interrupts.IplIgnoresLevelZero | mc68k.cpp:192 | The queue at level 0 never influences the pin, because the scan stops at `i > 0`. |
| Interrupts.Initial | mc68k.h:109 | The controller starts with eight empty queues, and its pin agrees with them. |
| Interrupts.InjectAppends | mc68k.cpp:91-95 | Injecting appends the vector at the back of its level and keeps duplicates. Every other level is unchanged, and the pin stays right. |
| Interrupts.InjectAtLevelZeroKeepsPin | mc68k.cpp:93-94 | A vector injected at level 0 is queued, but the pin does not change. |
| Interrupts.AcknowledgeEmptyLevel | mc68k.cpp:116-119 | Acknowledging an empty level returns the autovector and changes neither the queues nor the pin. |
| Interrupts.AcknowledgePopsOldest | mc68k.cpp:121-127 | Acknowledging a non-empty level returns its front (oldest) vector, which is never the autovector. Exactly that element leaves the queue, the other levels are unchanged, and the pin stays right. |
| Interrupts.InjectAllAppends | mc68k.cpp:93 | A run of injections at one level appends its vectors in order. The other levels are unchanged. |
| Interrupts.AcknowledgeNTakesFront | mc68k.cpp:121-122 | k acknowledges of a level holding at least k vectors return its first k vectors, oldest first. Those k leave the queue, and the other levels are unchanged. |
| Interrupts.Fifo | mc68k.cpp:121-122 | After injecting `vs`, acknowledging the level as often as it holds vectors returns the old contents followed by `vs`, in order, and empties the level. |
| Interrupts.PriorityExample | mc68k.cpp:192-199 | Inject at level 5, then at level 3: the pin shows 5. Acknowledging level 5 returns its vector, and the pin drops to 3. |
| Mc68k.Mc68k.constructor | mc68k.h:109-111 | The object starts with eight empty queues, pin 0 and cycle counter 0. Its three blocks are distinct and fresh, with empty histories, and the shared log is empty. |
| Mc68k.Mc68k.InjectInterrupt | mc68k.cpp:91-95 | The new queues and pin are exactly `Interrupts.Inject` of the old ones, and the invariant is kept. |
| Mc68k.Mc68k.HasPendingInterrupt | mc68k.cpp:97-106 | The result is true if and only if the vector occurs in the queue of that level. Nothing is modified. |
| Mc68k.Mc68k.ReadIrqUserVector | mc68k.cpp:114-128 | The answer and the new queues and pin are exactly `Interrupts.Acknowledge` of the old state: the autovector on an empty level, otherwise the front vector. |
| Mc68k.Mc68k.RaiseIpl | mc68k.cpp:189-203 | The downward loop sets the pin to `Interrupts.Ipl` of the queues. |
| Mc68k.Mc68k.Mask | mc68k.h:33 | The address a block sees has no bits outside the peripheral mask, and masking it again changes nothing. |
| Mc68k.Mc68k.Claimant | mc68k.h:55-59 | An address is unclaimed if and only if no block claims its masked value. Otherwise the claimant claims it, and no block earlier in GPT, SIM, QSM order does. |
| Mc68k.Mc68k.Read8 | mc68k.h:31-40 | A byte read is the claimant's read of the masked address, or 0 when no block claims it. |
| Mc68k.Mc68k.Read16 | mc68k.h:42-51 | A word read is the claimant's read of the masked address, or 0 when no block claims it. |
| Mc68k.Mc68k.Write8 | mc68k.h:53-60 | A byte write adds one event, with the masked address, to the claimant's history and to no other history. The shared log gains exactly that call, made on the claimant. Nothing changes when the address is unclaimed. The invariant is kept. |
| Mc68k.Mc68k.WriteBlock8 | mc68k.h:57-59 | Writing a byte to one block appends the write to that block's history and to the shared log. The other blocks are unchanged, and the invariant is kept. |
| Mc68k.Mc68k.Write16 | mc68k.h:62-69 | A word write adds one event, with the masked address, to the claimant's history and to no other history. The shared log gains exactly that call, made on the claimant. Nothing changes when the address is unclaimed. The invariant is kept. |
| Mc68k.Mc68k.WriteBlock16 | mc68k.h:66-68 | Writing a word to one block appends the write to that block's history and to the shared log. The other blocks are unchanged, and the invariant is kept. |
| Mc68k.Mc68k.RoutingUsesMaskedAddress | mc68k.h:33 | Two addresses equal under the peripheral mask have the same claimant, the same reads and the same routed writes. |
| Mc68k.Mc68k.GptTakesPrecedence | mc68k.h:35-37 | An address the GPT claims goes to the GPT alone, whatever SIM and QSM would claim. |
| Mc68k.Mc68k.SimTakesPrecedenceOverQsm | mc68k.h:57-59 | An address the GPT does not claim but the SIM does goes to the SIM alone, whatever QSM would claim. |
| Mc68k.Mc68k.UnclaimedAddress | mc68k.h:39 | An address no block claims reads as 0 in both widths, and writes to it reach no block. |
| Mc68k.Mc68k.WriteReachesAtMostOneBlock | mc68k.h:66-68 | A write is delivered to at most one block, and to none when the address is unclaimed. |
| Peripherals.Peripheral.Write8 | mc68k.h:57-59 | A block's write8 appends the write to its own history and the call, made on that block, to the shared log. |
| Peripherals.Peripheral.Write16 | mc68k.h:66-68 | A block's write16 appends the write to its own history and the call, made on that block, to the shared log. |
| Peripherals.Peripheral.Exec | mc68k.cpp:84-86 | A block's exec appends a tick of the delta to its own history and the call, made on that block, to the shared log. |
| Mc68k.AfterAcknowledgements | mc68k.cpp:24-27 | The queues and pin after the core's acknowledges during a step, each as readIrqUserVector does it. There are still eight queues. |
| Mc68k.Mc68k.Perform | mc68k.cpp:24-27 | One callback of the core: an acknowledge runs readIrqUserVector on its level, and a bus write runs write8 or write16. The queues, the pin, the log and the histories change exactly as that one call does, and the invariant is kept. |
| Mc68k.Mc68k.RunCore | mc68k.cpp:81 | The callbacks made during `m68k_execute`, performed in order. The queues and pin end as `AfterAcknowledgements` of the old ones. The log gains exactly `BusCalls`, and each block's history gains exactly `BusDelivered` for it. The invariant is kept. |
| Mc68k.Mc68k.Exec | mc68k.cpp:79-89 | The core's callbacks come first: the queues and pin end as `AfterAcknowledgements` of the old ones, and the log and histories gain their bus writes. Then the counter grows by the delta modulo 2^64. Then each block is advanced once by the delta: its own exec appends the tick, and the log gains exactly GPT, then SIM, then QSM. The delta is returned, and the invariant is kept. |
| Mc68k.Mc68k.Advance | mc68k.cpp:82-86 | After the core returns, the counter grows by the delta modulo 2^64, and every block gains one tick of the delta, in GPT, SIM, QSM order. The cycle accounting is kept. |
| Mc68k.Mc68k.TickBlocks | mc68k.cpp:84-86 | The three exec calls, in source order: each history gains the tick, and the log gains GPT, SIM, QSM in that order. |
| Mc68k.Mc68k.BusCallsMatchDelivered | mc68k.h:53-69 | The log and the histories agree: the bus-write calls the log records on a block are exactly the events that block was delivered. |
| Mc68k.AcknowledgementsOnlyRemove | mc68k.cpp:114-128 | During a step the core can only take vectors off the front of the queues. Each queue ends as a suffix of what it was, nothing is added or reordered, and the pin keeps showing the IPL. |
| Mc68k.NoAcknowledgeKeepsInterrupts | mc68k.cpp:79-89 | A step in which the core acknowledges nothing leaves the queues and the pin as they were. |
| Mc68k.AcknowledgeDuringStepExample | mc68k.cpp:24-27 | 0x19 queued at level 5 and acknowledged by the core during a step leaves every queue empty and the pin at 0. |
| Mc68k.Mc68k.GetCycles | mc68k.h:83 | The counter is below 2^64 and equals, modulo 2^64, the total of the deltas every block has been advanced by. |
| Mc68k.ExecAccounted | mc68k.cpp:82-86 | Advancing the counter and every block by the same delta keeps the counter equal to the sum of the deltas modulo 2^64. |
| Disassembly.Walk | mc68k.cpp:167-184 | The reference definition of the lines dumpAssembly writes from address `i` up to the bound. What it means is proved in `WalkAddressesInRange`, `WalkAddressesIncrease` and `WalkWellSeparated`. |
| Disassembly.EndsBlock | mc68k.cpp:177-182 | A text closes a basic block when it starts with "rts", "bra " or "jmp ". `WalkWellSeparated` shows that the blank lines fall exactly there. |
| Disassembly.RangeEnd | mc68k.cpp:167 | The uint32_t bound `first + count`. It is the plain sum when that fits in 32 bits; otherwise it wraps to the sum less 2^32, which lies below `first`. |
| Disassembly.DumpAssembly | mc68k.cpp:167-184 | The loop writes exactly the lines of `Walk` from `first` to the uint32_t bound `first + count`. |
| Disassembly.Step | mc68k.cpp:172-175 | The walk always advances by at least one byte, even when the decoded length is 0. |
| Disassembly.WalkAddressesInRange | mc68k.cpp:167 | The instruction addresses start at `first` and lie in [first, bound). The walk stops only once the last instruction reaches or overhangs the bound. |
| Disassembly.WalkAddressesIncrease | mc68k.cpp:172-175 | Each address is the previous one plus that instruction's length, or plus 1 for a length of 0. Addresses strictly increase. |
| Disassembly.WrappedRangeDumpsNothing | mc68k.cpp:167 | When `first + count` reaches 2^32, the uint32_t bound wraps below `first` and nothing is dumped. The same holds for `count == 0`. |
| Disassembly.WalkWellSeparated | mc68k.cpp:177-183 | Every blank line follows an instruction line. An instruction line is followed by a blank line exactly when its text starts with "rts", "bra " or "jmp ". |
| Disassembly.ReturnIsFollowedBySeparator | mc68k.cpp:182-183 | A two-instruction range ending in `rts` dumps both instruction lines, then one blank line right after the `rts`. |
| Disassembly.NextAddressAsWritten | mc68k.cpp:172-175 | The source's uint32_t address update: the plain next address when it fits in 32 bits, otherwise that address less 2^32, which lies below the current one. |
| Disassembly.AddressAfterAsWritten | mc68k.cpp:167-175 | The address the loop, as written, holds after k steps. `TwoByteWalkAsWritten` and `OverhangNeverEndsAsWritten` use it. |
| Disassembly.OverhangNeverEndsAsWritten | mc68k.cpp:167-175 | As written, with a 32-bit address: dump 15 bytes from 0xFFFFFFF0 with two-byte instructions. The bound is 0xFFFFFFFF and no address reaches it, so the walk returns to its start after 2^31 steps. |
| Disassembly.OverhangEndsCorrected | mc68k.cpp:172-175 | Take the instruction at 0xFFFFFFFE that overhangs the top of memory. As written, it wraps the address to 0. The corrected walk ends with that instruction's line. |

## Left out

- The Musashi execution core (`m68k_execute`, `m68k_set_irq`, register access, `m68k_pulse_reset`, `m68k_disassemble`) is foreign C code.
  - The cycles of one instruction are the parameter of `Exec`.
  - What the core does to the object while the instruction runs is also a parameter of `Exec`: a sequence of acknowledges and bus writes. The model does not decide which callbacks an instruction makes. It proves what each one does, in order, before the counter and the blocks advance.
  - The interrupt pin is the field `irq`.
  - The disassembler is a function parameter of `DumpAssembly`.
- `Exec` does not model a negative cycle count: `m68k_execute` returns an `int`, taken here as a non-negative value below 2^31.
- The internal register behaviour of Gpt, Sim and Qsm, and their Port objects, live in headers that are not part of this model.
  - Each block's range test is a fixed, abstract predicate of the masked address.
  - Its reads are abstract functions of the block's event history and the address.
  - Writes and `exec` only record an event, in the block's history and in the shared log.
  - Any side effect of a read on a block is not captured.
- The core's memory callbacks (`m68k_read_memory_*`, `m68k_write_memory_*`) live in code that is not part of this model. A core action is a write that reaches this object's `write8` or `write16` router. Bus reads are not actions, because a read changes nothing in this model.
- `Exec`: an acknowledge of a level of 8 or more is excluded, as for `ReadIrqUserVector`. The core only acknowledges levels 1 to 7.
- Blocks injecting interrupts back into the Mc68k during their `exec` are not modelled. The blocks hold a reference to their owner, but their code is not shown.
- `g_peripheralMask` and the `PeriphAddress` type come from a header that is not part of this model.
  - The mask is a constant field set by the constructor.
  - The cast to `PeriphAddress` is taken to keep all 32 bits.
- `g_instance` and the `extern "C"` callback trampolines are process-wide atomic state and foreign-ABI glue. The acknowledge trampoline's cast of the answer to `int` is not modelled.
- The opaque CPU state buffer and its `reinterpret_cast` are raw memory layout. So are `getCpuState` and the Port and block accessors.
- `onIllegalInstruction` (an assert), `onReset` (an empty hook), `readImm16`, `getResetPC`, `getResetSP`, `reset`, `setPC`, `getPC` and `disassemble` are one-line forwards to the execution core, or hooks for subclasses.
- `Interrupts.Autovector` is Musashi's `M68K_INT_ACK_AUTOVECTOR`, taken as 0xFFFFFFFF. Its header is not part of this model.
- `InjectInterrupt`, `HasPendingInterrupt`, `ReadIrqUserVector`: a level of 8 or more indexes `std::array` out of bounds in the source, which is undefined behaviour. The model requires `level < 8`.
- `DumpAssembly` leaves out the file I/O.
  - Opening the output file, and the `false` result when that fails, are not modelled.
  - `MCHEXN` address formatting is not modelled; a line carries the address as a number.
  - The 64-byte text buffer is not modelled.
- `DumpAssembly` does not wrap the address at 2^32 the way `uint32_t i` does (see Findings). The loop bound `first + count` is wrapped, as written.

## Findings

| source | as written | input that shows it | evidently intended | confidence | as-written member | corrected member |
|---|---|---|---|---|---|---|
| mc68k.cpp:167-175 | The address `i` is a `uint32_t`, so `i += opSize` wraps to a small address when an instruction overhangs 0xFFFFFFFF. The loop condition `i < _first + _count` then holds again, and the walk starts over from low memory. | `first` = 0xFFFFFFF0, `count` = 15, and every instruction is two bytes long. The bound is 0xFFFFFFFF. Every address the loop holds is even, so it stays below the bound, and the address returns to 0xFFFFFFF0 after 2^31 steps. The loop never ends. | The walk stops once an instruction reaches or passes the bound. On this input it dumps the instructions at 0xFFFFFFF0 to 0xFFFFFFFE and stops. | not executed; it needs a range that ends in the last bytes of the 32-bit space | Disassembly.OverhangNeverEndsAsWritten | Disassembly.DumpAssembly |
