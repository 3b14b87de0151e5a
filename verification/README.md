# I2C transfer sequencer and tick countdown of an STM32L1 firmware demo

This project models the two pieces of logic in the firmware's `src/main.c`:

- `i2c_transact`, the blocking routine that drives the I2C1 peripheral through
  start, address, data and stop primitives. It is modelled as the pure function
  `Transfer.Transact`. The function returns the routine's code (0 or -1), the
  ordered trace of bus primitives it issues, and the receive buffer afterwards.
  The bus primitives are trace events (`Bus.Event`). The bytes that
  `I2C_ReceiveData` returns are a parameter, `incoming`. The C pointers are
  `CTypes.Buffer`, which is either `Null` or the caller's array. The `uint8_t`
  lengths, the `uint16_t` `addr` and the `uint32_t` countdown are ranged
  newtypes.
- `TimingDelay_Decrement` and the assignment in `Delay`: a saturating `uint32_t`
  countdown, `TimingDelay`.

`TransferSteps.TransactSteps` is a second rendering of the routine. It follows
the C text statement by statement. The two counted `while` loops are the
methods `TransferSteps.SendLoop` and `TransferSteps.ReceiveLoop`. The method is
proved equal to `Transfer.Transact` on every input.

Caller obligations that the C code cannot check are preconditions
(`Transfer.ValidCall`):

- a non-null pointer addresses at least as many bytes as its length;
- the bus hands back one byte for every receive issued.

One path reads through a null pointer: `txb` is null, `txl` is non-zero and the
receive side is usable. There the routine addresses the device as a receiver and
then dereferences `txb` in the send loop. The model does not forbid this call.
It returns the explicit outcome `NullTxRead` together with the trace issued so
far.

The model follows the code, not the conventional combined write-then-read of
the I2C-bus specification (NXP UM10204, section 3.1.10). Three places differ
from what a reader of the routine's intent might expect:

- After the writes, the routine issues only a bare repeated START. No slave
  address with the read bit follows it. `TransferProperties.EventPositions`
  proves that the only address event of a call is its second event, and
  `TransferProperties.WriteThenRead` shows this for a concrete two-byte write
  followed by a two-byte read.
- A receive-only call issues START twice: once before the receiver address and
  once before the reads (`TransferProperties.StartCount`,
  `TransferProperties.ReceiveOnlyTrace`).
- A usable transmit side takes priority. When both sides are usable, the
  opening address is in transmit mode.

## Model

| member | source | states |
|---|---|---|
| Transfer.Transact | src/main.c:66-98 | the call is rejected with -1, an empty trace and the receive argument untouched exactly when neither side has a non-null pointer with a non-zero length; it reads through a null pointer exactly when `txb` is null, `txl` is non-zero and the receive side is usable; a returned code is 0 or -1; a successful trace ends in Stop |
| Transfer.Sends | src/main.c:82-85 | after n iterations the send loop has issued exactly n sends, the i-th carrying byte i of the transmit array |
| Transfer.Recvs | src/main.c:88-91 | after n iterations the receive loop has issued exactly n receives |
| Transfer.Fill | src/main.c:88-91 | after n iterations the receive array holds the first n bytes the bus returned at positions 0..n and is unchanged beyond them |
| TransferSteps.SendLoop | src/main.c:82-85 | the send loop faults exactly when the transmit pointer is null and the length non-zero; otherwise it appends the txl transmit bytes as sends, in index order |
| TransferSteps.ReceiveLoop | src/main.c:88-91 | the receive loop appends exactly rxl receives and leaves the receive array holding the bus bytes below rxl, unchanged beyond |
| TransferSteps.TransactSteps | src/main.c:66-98 | the statement-by-statement routine, with its two counted loops, yields the same code, trace, receive buffer or null-pointer outcome as the functional model |
| TransferProperties.OpeningPair | src/main.c:70-77 | any call with a usable side begins Start then the device address, in transmit mode whenever the transmit side is usable and in receive mode otherwise, on the null-pointer path too |
| TransferProperties.SuccessTrace | src/main.c:70-95 | a call with a usable side and no null transmit pointer returns 0 with a trace of length 2 + txl + (1 + rxl if the receive side is usable) + 1: Start, address, the txl transmit bytes in order, then a bare Start and rxl receives when the receive side is usable, then Stop |
| TransferProperties.EventPositions | src/main.c:70-95 | on success Start occurs only first and right after the sends, the only address event is the second, sends and receives occur only in their phases, and Stop occurs only last |
| TransferProperties.StartCount | src/main.c:71-87 | a successful call issues one Start, or two when the receive side is usable, so a receive-only call issues two |
| TransferProperties.ReceiveOnlyTrace | src/main.c:74-95 | a receive-only call issues exactly Start, the receiver address, Start, rxl receives and Stop |
| TransferProperties.ReceiveBuffer | src/main.c:86-92 | after a call that completes, a usable receive array holds the bus bytes at positions below rxl and is unchanged at every other position; an unusable receive argument is returned as given |
| TransferProperties.NullTransmitPointer | src/main.c:70-85 | a null transmit pointer with non-zero length reaches the null read after Start and the receiver address when the receive side is usable, and is rejected with -1 otherwise |
| TransferProperties.AddrIgnored | src/main.c:66-98 | the `addr` parameter does not affect the outcome |
| TransferProperties.WriteThenRead | src/main.c:66-98 | writing 0xAA, 0xBB to device 0x50 and reading two bytes issues Start, transmit address, both sends, a bare Start, two receives and Stop, returns 0 and fills the buffer with the bus bytes |
| TimingDelay.DecrementSaturates | src/main.c:213-219 | a tick leaves a zero countdown at zero and lowers a positive one by exactly one |
| TimingDelay.TicksSaturate | src/main.c:213-219 | after k ticks a countdown that started at c reads c - k, or zero once k reaches c |
| TimingDelay.DelayElapses | src/main.c:199-219 | after `Delay(n)` arms the countdown, it reads zero after k ticks exactly when k >= n |

## Left out

- The vendor primitives' effect on the wire (ACK/NACK, status flags, clock stretching, arbitration): their source is not part of this model. Each primitive is a trace event, and receives draw from the `incoming` byte sequence.
- A bus primitive that never completes: the routine would hang. The model assumes every primitive returns.
- The busy-wait loop of `Delay` (src/main.c:203-204) and `SysTick_Handler` (src/main.c:227-230): their termination depends on an interrupt updating a `volatile` shared with the waiting context, which is concurrency. Ticks are modelled as repeated applications of the decrement instead.
- `main` (src/main.c:103-191): clock, GPIO, RCC and I2C peripheral initialisation, the LED blink loop and `printf`, all calls into the vendor library.
- Aliasing between `txb` and `rxb`: the two arrays are treated as distinct.
- Reads or writes beyond a buffer's end, and receives past the end of the bus bytes: these are preconditions (`Transfer.ValidCall`) rather than modelled faults, because the C code cannot detect them.
