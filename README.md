# TMC4671 register slave, modelled in Dafny

This project models the register-access slave of the Trinamic TMC4671 mock in
`cocotbext/spi/devices/Trinamic/TMC4671.py`.

- The device takes one 40-bit SPI word per chip-select frame, most significant bit first.
- Bit 39 is the direction (1 = write). It is followed by 7 address bits and 32 content bits.
- The device keeps a sparse register file. It starts with `0x00` = `"4671"` and `0x01` = 0.
- A change hook on `0x01` rewrites `0x00` from a six-entry identification table.
- `create_spi_word` builds the words a testbench sends.

The project has three files:

- `bits.dfy` (module `Bits`) gives Python's bit operations on unbounded integers.
  - `Bit(x, i)` is `bool(x & (1 << i))`, with halving as floor division.
  - `WordBits(x, n)` is the n low bits, most significant first.
  - `FromBitsMsb` is the value of a received field.
  - `ShiftedIn` is the accumulator of `acc |= b << (n-1-k)`.
  - Lemmas tie these to `x / 2^i`, `x % 2^n` and to each other.
- `trinamic.dfy` (module `Trinamic`) is the device.
  - The encoder `CreateSpiWord`.
  - The register file and hook table as the fields of class `TMC4671`.
  - The two sampling loops as methods with loop invariants.
  - The transaction as the methods `ReceiveFrame` and `Transaction`.
  - The reference functions `Decode`, `RunHook`, `Commit` and `Run`.
  - The methods are proved equal to the reference functions.
- `trinamic_properties.dfy` (module `TrinamicProperties`) holds what is proved about the reference functions:
  - the word layout;
  - when a frame is accepted;
  - which failures leave the registers alone;
  - what MISO carries;
  - what a write may change;
  - the encoder → transaction round trips;
  - the identification registers.

The simulator's awaits become a `Trace` value.

- A `Trace` records, for each race the transaction runs, which trigger won and what MOSI read.
- `Transaction(t)` therefore runs its checks in the source's order on a given bus history.
- A well-formed trace has one step per sampled bit: 7 address steps and 32 data steps.
- `BusFrame(w)` is the trace a master produces for word `w`.
- `Carries(t, w)` says that trace `t` passes every timing check and delivers `w`.
- `BusFrameCarries` proves that `BusFrame(w)` carries `w` for every word. So the round-trip lemmas, which require a trace carrying an encoded word, apply to every word the encoder produces.

Behaviour that follows the code where its comments or messages say otherwise:

- The direction bit (lines 98–104) is awaited as a plain falling edge, then a plain timer. `frame_end` can win neither, so the check at line 103 never fires. In the model, the direction bit has no abort.
- The address loop (106–114) and the content loop (123–131) OR the bit in and drive MISO before the abort check. So a frame cut short has still echoed or driven the bit on which it was cut.
- MISO is driven from `registers[address]` on writes as well as reads. A missing address raises `KeyError` at the first content bit (line 128), before that bit's abort check.
- The hook calls its callable again before each dependent address (line 146) and stores that one value.
- A `KeyError` from the hook comes after `registers[address] = content`, so it leaves that store in place.
- The encoder masks the address to 4 bits (line 81) although the word has 7 address bits. A decoded address is therefore `address % 16`.

## Model

| member | source | states |
|---|---|---|
| Trinamic.CreateSpiWord | cocotbext/spi/devices/Trinamic/TMC4671.py:67-84 | A word is produced exactly when the operation is "read" or "write" and the address is a register. A bad operation gives ValueError(BadOperation), and for a good operation a missing address gives ValueError(UnknownAddress). |
| TrinamicProperties.EncodedLayout | cocotbext/spi/devices/Trinamic/TMC4671.py:69-84 | The word is below 2^40. Its bits from 32 up are 128·write + address%16, so bit 39 is the direction and bits 38–36 are zero. Its low 32 bits are content mod 2^32. Clocked out MSB first it is [write] ++ 7 bits of address%16 ++ 32 bits of content%2^32. |
| TrinamicProperties.BusFrameCarries | cocotbext/spi/devices/Trinamic/TMC4671.py:31-40 | The 40-bit MSB-first frame a master sends for a word carries that word and passes every timing check. |
| TrinamicProperties.EncodedFrame | cocotbext/spi/devices/Trinamic/TMC4671.py:98-127 | From a frame carrying an encoded word, the slave decodes the direction, address%16 and content%2^32. |
| Bits.ShiftedInComplete | cocotbext/spi/devices/Trinamic/TMC4671.py:106-110 | After all n iterations that OR bit k into position n-1-k, the accumulator is the MSB-first value of the bits. |
| Bits.FromWordBits | cocotbext/spi/devices/Trinamic/TMC4671.py:124-128 | The MSB-first value of the n bits `x & (1 << (n-1-k))` is x mod 2^n. |
| Bits.BitIsDivMod | cocotbext/spi/devices/Trinamic/TMC4671.py:128 | `Bit(x, i)`, Python's `bool(x & (1 << i))`, is `(x // 2^i) % 2 == 1`. |
| Trinamic.ReceiveAddress | cocotbext/spi/devices/Trinamic/TMC4671.py:106-114 | The loop stops exactly at the first step where `frame_end` won. The echoed MISO levels are the MOSI bits up to and including that step. A completed loop returns the MSB-first value of all the bits. |
| Trinamic.ReceiveContent | cocotbext/spi/devices/Trinamic/TMC4671.py:123-131 | A missing register raises its KeyError before driving anything. Otherwise MISO carries the register's bits, MSB first, up to and including the step where `frame_end` won (chip select deasserted). A completed loop returns the MSB-first value of the content bits. |
| Trinamic.IdentificationHook | cocotbext/spi/devices/Trinamic/TMC4671.py:51-58 | No contract of its own: the identification lookup `table[registers[0x01]]`, or the KeyError of that value. `IdentificationCommit` states what it does after a store to 0x01, and `InitialValues` gives the table. |
| Trinamic.Decode | cocotbext/spi/devices/Trinamic/TMC4671.py:90-121 | No contract of its own: the header checks (SCLK at select, abort in the address, boundary race, read pause), then `DecodeData`. `ReceiveFrame` is proved equal to it. `DecodeSucceedsIff`, `AddressAbort`, `ReadPauseEnforced`, `MisoPrefix` and `EncodedFrame` state what it accepts and what it echoes. |
| Trinamic.DecodeData | cocotbext/spi/devices/Trinamic/TMC4671.py:123-139 | No contract of its own: the missing register, abort in the content, overrun and SCLK-at-end checks. `ReceiveContent` and `ReceiveFrame` are proved equal to it. `ContentAbort`, `MissingAddressFails` and `DrivenLevels` state its results. |
| Trinamic.RunHook | cocotbext/spi/devices/Trinamic/TMC4671.py:143-146 | No contract of its own: the hook loop of a watched address. The hook loop of `Transaction` is proved equal to it. `RunHookOutcome` and `RunHookFrame` state its outcomes and which registers it touches. |
| Trinamic.Commit | cocotbext/spi/devices/Trinamic/TMC4671.py:140-146 | No contract of its own: the store, then `RunHook`. `Transaction` is proved equal to it on a write that passed. `CleanFrameEffect`, `WriteChangesOnly` and `IdentificationCommit` state its effect. |
| Trinamic.Run | cocotbext/spi/devices/Trinamic/TMC4671.py:90-146 | No contract of its own: a whole transaction, `Decode` then `Commit` on a write that passed. `Transaction` is proved equal to it. The lemmas below state its properties. |
| Trinamic.TMC4671.constructor | cocotbext/spi/devices/Trinamic/TMC4671.py:42-59 | The register file is {0x00: "4671", 0x01: 0}, the only hook watches 0x01 and rewrites [0x00] from the table, and every hook target exists. |
| Trinamic.TMC4671.GetRegister | cocotbext/spi/devices/Trinamic/TMC4671.py:63-65 | Returns the register's value when present, else the KeyError of that number. |
| Trinamic.TMC4671.RegisterAddressChangedHook | cocotbext/spi/devices/Trinamic/TMC4671.py:87-88 | The hook table gains (or replaces) the entry for the watched address and is otherwise unchanged. The invariant holds again when the new targets exist. |
| Trinamic.TMC4671.ReceiveFrame | cocotbext/spi/devices/Trinamic/TMC4671.py:90-139 | Its outcome and MISO levels are those of `Decode`: SCLK at select, abort in the address, boundary race, read pause, missing register, abort in the content, overrun, and SCLK at the end, in that order. When all pass, it returns the decoded address, which exists, and the decoded content. |
| Trinamic.TMC4671.Transaction | cocotbext/spi/devices/Trinamic/TMC4671.py:90-146 | Its outcome, the new register file and MISO are `Run` of the old register file. A write that passed every check stores the content, then assigns the hook value to each dependent in turn, stopping at the first KeyError. The invariant "hook targets exist" is kept. |
| TrinamicProperties.DecodeSucceedsIff | cocotbext/spi/devices/Trinamic/TMC4671.py:90-139 | The checks pass if and only if the frame is clean (no timing violation, the pause checked on reads only) and its decoded address exists. |
| TrinamicProperties.CleanFrameEffect | cocotbext/spi/devices/Trinamic/TMC4671.py:123-146 | On a clean frame:<br>- a missing address gives KeyErr and changes nothing;<br>- a read is Ok and changes nothing;<br>- a write has the effect of `Commit`. |
| TrinamicProperties.RunHookOutcome | cocotbext/spi/devices/Trinamic/TMC4671.py:143-146 | The commit ends either Ok or with a hook's KeyError, never with a frame error. |
| TrinamicProperties.ReadChangesNothing | cocotbext/spi/devices/Trinamic/TMC4671.py:140-146 | A read never changes the register file. It succeeds if and only if the frame is clean and the address exists. |
| TrinamicProperties.FrameErrorChangesNothing | cocotbext/spi/devices/Trinamic/TMC4671.py:90-139 | Any SpiFrameError leaves the register file unchanged. |
| TrinamicProperties.MissingAddressFails | cocotbext/spi/devices/Trinamic/TMC4671.py:128 | A frame whose address is not a register never succeeds and changes nothing. On a clean frame it fails with the KeyError of that address. |
| TrinamicProperties.AddressAbort | cocotbext/spi/devices/Trinamic/TMC4671.py:106-114 | Chip select released during any address bit, after SCLK was high at select, is a Deselected frame error and leaves the register file unchanged. |
| TrinamicProperties.ContentAbort | cocotbext/spi/devices/Trinamic/TMC4671.py:123-131 | Chip select released during any content bit, after the header passed and the address exists, is a Deselected frame error and leaves the register file unchanged. |
| TrinamicProperties.UncleanFrameFails | cocotbext/spi/devices/Trinamic/TMC4671.py:90-139 | A frame that breaks any timing check ends with a frame error or the KeyError of its address, and leaves the register file unchanged. |
| TrinamicProperties.ReadPauseOnlyOnReads | cocotbext/spi/devices/Trinamic/TMC4671.py:119-121 | On a write, an edge inside the 250 ns pause changes nothing: the whole effect is the same. |
| TrinamicProperties.ReadPauseEnforced | cocotbext/spi/devices/Trinamic/TMC4671.py:119-121 | On a read whose address phase completed, an edge inside the pause is a ReadPause error and changes nothing. |
| TrinamicProperties.MisoPrefix | cocotbext/spi/devices/Trinamic/TMC4671.py:98-131 | MISO always carries a prefix of: the direction bit, the address bits, then the addressed register's 32 bits, MSB first. |
| TrinamicProperties.DrivenLevels | cocotbext/spi/devices/Trinamic/TMC4671.py:123-131 | On a completed frame MISO has 40 levels: the echoed header, then at position k ≥ 8 bit 39−k of the register. The last 32 levels read back the register mod 2^32. |
| TrinamicProperties.RunHookFrame | cocotbext/spi/devices/Trinamic/TMC4671.py:145-146 | The hook keeps every key and adds only dependents. Registers that are not dependents keep their values. |
| TrinamicProperties.WriteChangesOnly | cocotbext/spi/devices/Trinamic/TMC4671.py:140-146 | A transaction changes or adds no register except the decoded address and the dependents of its hook. |
| TrinamicProperties.KeysPreserved | cocotbext/spi/devices/Trinamic/TMC4671.py:140-146 | When every hook target exists, no transaction changes the set of register addresses, and the invariant is kept. |
| TrinamicProperties.WriteFrameEffect | cocotbext/spi/devices/Trinamic/TMC4671.py:67-146 | A frame carrying a write word commits content%2^32 at address%16, or fails with KeyErr(address%16) and changes nothing. |
| TrinamicProperties.WriteRoundTrip | cocotbext/spi/devices/Trinamic/TMC4671.py:67-146 | For an unwatched register below 16, the write frame succeeds and leaves `registers[address := content % 2^32]`. |
| TrinamicProperties.ReadFrameEffect | cocotbext/spi/devices/Trinamic/TMC4671.py:67-146 | A read frame changes nothing. Its last 32 MISO levels read back register address%16 mod 2^32, or it fails with that address's KeyError. |
| TrinamicProperties.WriteThenRead | cocotbext/spi/devices/Trinamic/TMC4671.py:67-146 | After writing an unwatched register below 16, reading it back drives content mod 2^32 onto MISO. |
| TrinamicProperties.InitialValues | cocotbext/spi/devices/Trinamic/TMC4671.py:44-59 | The registers start as {0x00: 0x34363731, 0x01: 0}. The table is {0: 0x34363731, 1: 0x100, 2: 0x20220323, 3: 0x00101029, 4: 0x76617232, 5: 0x72657633}. The seeded hook only targets existing registers. |
| TrinamicProperties.BigEndianPrefixes | cocotbext/spi/devices/Trinamic/TMC4671.py:46 | `int.from_bytes` of four bytes, big-endian, is b0·2^24 + b1·2^16 + b2·2^8 + b3. |
| TrinamicProperties.IdentificationCommit | cocotbext/spi/devices/Trinamic/TMC4671.py:50-59 | Storing v at 0x01: when v indexes the table, 0x00 becomes table[v]. Otherwise it is KeyErr(v), with 0x01 = v and 0x00 untouched. |
| TrinamicProperties.IdentificationWrite | cocotbext/spi/devices/Trinamic/TMC4671.py:50-146 | Under the seeded hook, the frame writing v to 0x01 stores c = v mod 2^32. If c is in the table (0 to 5 by InitialValues) it sets 0x00 to table[c]. Otherwise it fails with KeyErr(c) and 0x00 keeps its value. |
| TrinamicProperties.SeededKeysStay | cocotbext/spi/devices/Trinamic/TMC4671.py:45-59 | Under the seeded hook, a register file with keys {0x00, 0x01} keeps exactly those keys through any transaction. |
| TrinamicProperties.SeededIdempotent | cocotbext/spi/devices/Trinamic/TMC4671.py:50-146 | Under the seeded hook, running the same transaction again leaves the register file as the first run left it. |

## Left out

- The cocotb scheduler is not modelled. This covers triggers, `First`, time, `await frame_start`, the `idle` Event and the wait in `get_register` (line 64). A `Trace` records the result of every race instead, so concurrency between a transaction and other coroutines is not modelled.
- `SpiSlaveBase`, `SpiConfig` (lines 31–40) and the signal handles are not part of this model. What the configuration fixes (40 bits, MSB first) appears only in `BusFrame` and `Carries`.
- The text of the `SpiFrameError` and `ValueError` messages is left out. Errors are told apart by kind: SclkNotIdle, Deselected, ReadPause, Overrun, BadOperation, UnknownAddress. The messages disagree with the code in places:
  - the comment at line 94 says SCLK should be low, but the code requires high;
  - the message at line 121 says 500 ns, but the timer is 250 ns;
  - the message at line 135 says 16 bits, but the word is 40.

  The model follows the code.
- Traces other than 7 address steps and 32 data steps are excluded (`Trace.WellFormed`). They describe no bus history the loops could produce; this is not a demand the source makes of its callers.
- A callback is modelled as a function of the register file. The source's zero-argument lambda reads `self._registers`; a callback that reads other state of the program or has side effects is not captured.
- Bus levels are two-valued: a MOSI read is a plain bit. The `ValueError` that `int(self._mosi.value)` (line 101) and `self._mosi.value.integer` (lines 110 and 127) raise on an X or Z line is not modelled. It would end the transaction before any store.
- Setting the MISO signal is recorded as the sequence of driven levels. When each level appears on the wire is not modelled.
