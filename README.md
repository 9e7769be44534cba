# Lilu patch engine and RTC storage, modelled in Dafny

This project models two sequential pieces of the Lilu kernel extension and
proves their contracts.

**The width-polymorphic patch engine** (`Patch`, over `Bytes`) has these parts:

- A patch record `P` has a width (`Variant`: U8, U16, U32, U64, U128, the
  x86_64 configuration), an address, an original value and a replacement value.
  All four are constant.
- `Patch` stores the replacement at the address, and `Restore` stores the
  original.
- `All` is the handle. It holds exactly one record and dispatches `Patch` and
  `Restore` on the tag. The tag is read from the record's own `variant` field,
  as the union reads `u8.type`.
- Memory is an `array<byte>` and an address is an index into it. A value of
  width w is a natural number below 256^w, stored little-endian as on x86_64.

**The RTC/CMOS storage driver** (`Rtc`, over `Bitwise`) has these parts:

- `Device` is two banks of 128 cells. Each bank sits behind an index port and a
  data port. Its constructor stands for no source code: the driver is always
  handed an existing device, and the constructor only shows that `Device.Valid()`
  can be met.
- `ReadByte` and `WriteByte` select the bank by `offset < BankSize`, latch
  `offset & DataMask` and access the data port.
- `ReadDirect` and `WriteDirect` loop over a buffer with offsets truncated to
  8 bits.
- With `updatecrc`, `WriteDirect` recomputes the Apple RTC checksum and stores
  it big-endian in two cells. The checksum is a 16-bit xor over the hashed
  offsets, with seven shift/xor-0x2001 rounds per byte.
- `&`, `^` and `>>` on unsigned integers are modelled on naturals: `Bitwise.And`
  and `Bitwise.Xor` work bit by bit, and a right shift by k is division by 2^k.

Each imperative method is proved against a specification function:

| method | specification function |
|---|---|
| `P.Patch` | `P.Patched` |
| `P.Restore` | `P.Restored` |
| `WriteDirect` | `WriteSpan` and `Seal` |
| `ComputeChecksum` | `Checksum` |

The lemmas then prove what the source promises about those functions: round
trip, idempotence, frame, and that the checksum does not depend on its own
cells.

The RTC header is not part of this model, so its constants are declared in
`Rtc` with these values:

- `RTC_BANK_SIZE` = 0x80 and `RTC_DATA_MASK` = 0x7F
- `APPLERTC_HASHED_ADDR` = 0x0E
- `APPLERTC_CHECKSUM_ADDR1` = 0x58 and `APPLERTC_CHECKSUM_ADDR2` = 0x59
- index and data ports 0x70/0x71 (primary bank) and 0x72/0x73 (extended bank)

The proofs rely only on these facts about the values:

- the bank size is 2^7, so two banks hold the 256 offsets;
- the mask is the bank size minus one;
- the two checksum cells are distinct offsets below 256;
- the hashed address is at most 2 · `RTC_BANK_SIZE`;
- the four port numbers are pairwise distinct.

The proofs do not need the checksum cells to lie in the hashed range.

The methods are specified by these functions:

- `Select` and `Ports` pick the bank and its index/data port pair by `offset < RTC_BANK_SIZE` (kern_rtc.cpp:125-131, 139-145).
- `Offset` is `off + i` truncated to `uint8_t` (kern_rtc.cpp:153, 161).
- `WriteSpan` is the storage after the write loop (kern_rtc.cpp:160-161).
- `Round` is one masked shift/xor round, and `Rounds` is n rounds (kern_rtc.cpp:167-171).
- `ChecksumUpTo` is the checksum after the offsets from the hashed address up to n, and `Checksum` is the full calculation (kern_rtc.cpp:164-172).

Their meaning is stated by the lemmas and method contracts in the table below:

- `Cell`, `ReadByte` and `WriteByte` cover `Select` and `Ports`.
- `WriteSpanAt` and `WriteSpanOutside` cover `Offset` and `WriteSpan`.
- `RoundHalves` covers `Round`.
- `ComputeChecksum` and the dependency lemmas cover `ChecksumUpTo` and `Checksum`.

The model splits the checksum loop of `writeDirect` out into the method
`ComputeChecksum`, which `WriteDirect` calls; the computation is the source's.
The source calls the low-bit flag `even`, but it is set when the checksum is
odd. The model names it `odd`; the behaviour is the same.

## Model

| member | source | states |
|---|---|---|
| Patch.Size | Lilu/PrivateHeaders/kern_patcher.hpp:26-51 | every width maps to a positive byte count (1, 2, 4, 8, 16), and that many bytes hold exactly the values of the backing `uintN_t`: 256^w = 2^N |
| Patch.Pow256IsPow2 | Lilu/PrivateHeaders/kern_patcher.hpp:36-51 | n bytes hold as many values as 8n bits, for every n |
| Patch.Load | Lilu/PrivateHeaders/kern_patcher.hpp:66 | the value read at an address fits the width, and its little-endian encoding is exactly the w bytes there |
| Patch.WriteType | Lilu/PrivateHeaders/kern_patcher.hpp:53-57 | a store writes the little-endian bytes of the value over exactly the w bytes at the address; all other bytes keep their value; reading back gives the value |
| Bytes.DecodeEncode | Lilu/PrivateHeaders/kern_patcher.hpp:56 | a value that fits w bytes, encoded and decoded, comes back unchanged |
| Bytes.EncodeDecode | Lilu/PrivateHeaders/kern_patcher.hpp:66 | bytes decoded to a value and re-encoded at the same width come back unchanged |
| Bytes.Store | Lilu/PrivateHeaders/kern_patcher.hpp:56 | a store puts its bytes in its span and leaves every byte outside the span unchanged |
| Bytes.StoreStore | Lilu/PrivateHeaders/kern_patcher.hpp:56 | a second store of the same width to the same address completely overrides the first |
| Bytes.StoreSame | Lilu/PrivateHeaders/kern_patcher.hpp:56 | storing the bytes already present changes nothing |
| Patch.EncodeDeadBeef | Lilu/PrivateHeaders/kern_patcher.hpp:56 | a 32-bit store of 0xDEADBEEF writes EF BE AD DE, least significant byte first |
| Patch.DecodeZeros | Lilu/PrivateHeaders/kern_patcher.hpp:66 | four zero bytes are read as the 32-bit value 0 |
| Patch.P.Patched | Lilu/PrivateHeaders/kern_patcher.hpp:69-71 | after a patch, the record's span decodes to `replaced` and no byte outside the span changes |
| Patch.P.Restored | Lilu/PrivateHeaders/kern_patcher.hpp:72-74 | after a restore, the record's span decodes to `original` and no byte outside the span changes |
| Patch.P.Capture | Lilu/PrivateHeaders/kern_patcher.hpp:65-66 | P(addr, rep) sets `original` to the value memory holds at addr; it sets address, replacement and width as given; memory is not modified |
| Patch.P.Given | Lilu/PrivateHeaders/kern_patcher.hpp:67-68 | P(addr, org, rep) sets `original == org` and `replaced == rep` without reading or writing memory |
| Patch.P.Patch | Lilu/PrivateHeaders/kern_patcher.hpp:69-71 | memory becomes `Patched` of the old memory: the span holds `replaced`, and nothing outside it changes |
| Patch.P.Restore | Lilu/PrivateHeaders/kern_patcher.hpp:72-74 | memory becomes `Restored` of the old memory: the span holds `original`, and nothing outside it changes |
| Patch.PatchRestoreRoundTrip | Lilu/PrivateHeaders/kern_patcher.hpp:65-74 | for a record whose original is what memory held, patch then restore gives back the whole memory unchanged |
| Patch.RestoreOverridesPatch | Lilu/PrivateHeaders/kern_patcher.hpp:69-74 | restore after patch has the same effect as restore alone, whatever memory held |
| Patch.PatchIdempotent | Lilu/PrivateHeaders/kern_patcher.hpp:69-71 | patching twice has the same effect as patching once |
| Patch.RestoreIdempotent | Lilu/PrivateHeaders/kern_patcher.hpp:72-74 | restoring twice has the same effect as restoring once |
| Patch.Wrap | Lilu/PrivateHeaders/kern_patcher.hpp:78-83 | the handle built from a record owns that record; its tag is the record's width; it is valid when the record is |
| Patch.All.Patch | Lilu/PrivateHeaders/kern_patcher.hpp:94-105 | the handle's patch has exactly the effect of its record's patch; the unsupported-tag branch is unreachable |
| Patch.All.Restore | Lilu/PrivateHeaders/kern_patcher.hpp:107-118 | the handle's restore has exactly the effect of its record's restore; the unsupported-tag branch is unreachable |
| Patch.Create | Lilu/PrivateHeaders/kern_patcher.hpp:121-124 | create(addr, rep) returns a fresh, valid handle tagged with the requested width; its record has the given address and replacement, and captures the current value at addr |
| Patch.CreateGiven | Lilu/PrivateHeaders/kern_patcher.hpp:126-129 | create(addr, org, rep) returns a fresh, valid handle tagged with the requested width; its record holds the given address, original and replacement |
| Patch.PatchThenRestore | Lilu/PrivateHeaders/kern_patcher.hpp:65-74 | a handle created over memory and then patched and restored leaves every byte of memory as it was |
| Bitwise.AndLowBits | Lilu/Sources/kern_rtc.cpp:132 | masking with the k low bits (such as `& RTC_DATA_MASK` or `& 0xFF`) gives the remainder modulo 2^k |
| Bitwise.XorBelow | Lilu/Sources/kern_rtc.cpp:166 | the xor of two k-bit values is a k-bit value, so `checksum ^= …` stays within 16 bits |
| Rtc.Cell | Lilu/Sources/kern_rtc.cpp:125-132 | the cell `offset & RTC_DATA_MASK` is below the bank size, and the selected bank's base plus the cell is the offset (offsets and bank/cell pairs correspond one to one) |
| Rtc.Device.IoWrite8 | Lilu/Sources/kern_rtc.cpp:132 | a write to an index port latches the cell number; a write to a data port stores the value in the latched cell of that bank and changes nothing else |
| Rtc.Device.IoRead8 | Lilu/Sources/kern_rtc.cpp:133 | a read of a data port returns the latched cell of that bank |
| Rtc.ReadByte | Lilu/Sources/kern_rtc.cpp:122-134 | returns the byte at the offset; storage is unchanged; the selected bank's index register now holds the cell, and the other bank's index is unchanged |
| Rtc.WriteByte | Lilu/Sources/kern_rtc.cpp:136-148 | storage changes at the offset only, where it becomes the value; the selected bank's index register now holds the cell, and the other bank's index is unchanged |
| Rtc.WriteThenReadByte | Lilu/Sources/kern_rtc.cpp:122-148 | readByte right after writeByte at the same offset returns the value written, and every other offset keeps its byte |
| Rtc.WriteSpanAt | Lilu/Sources/kern_rtc.cpp:160-161 | among the last 256 bytes written, byte i ends up at offset (off + i) mod 256 |
| Rtc.WriteSpanOutside | Lilu/Sources/kern_rtc.cpp:160-161 | an offset no byte is written to keeps its byte |
| Rtc.ReadDirect | Lilu/Sources/kern_rtc.cpp:150-156 | buffer[i] receives the byte at offset (off + i) mod 256 for every i < size; the rest of the buffer and the whole storage are unchanged |
| Rtc.WriteDirect | Lilu/Sources/kern_rtc.cpp:158-179 | storage becomes the old storage with the buffer's first size bytes written from off; with updatecrc, the checksum of that new storage is then stored in the checksum cells; the buffer is not modified |
| Rtc.ComputeChecksum | Lilu/Sources/kern_rtc.cpp:164-172 | the nested loop returns `Checksum` of the storage: ascending offsets from the hashed address to 255, checksum cells counted as 0, seven rounds per byte; storage is unchanged |
| Rtc.RoundHalves | Lilu/Sources/kern_rtc.cpp:167-171 | one round of the masked code is "halve, then xor 0x2001 if the low bit was set" on plain integers |
| Rtc.Seal | Lilu/Sources/kern_rtc.cpp:173-174 | the high byte of the checksum goes to the first checksum cell and the low byte to the second (high · 256 + low is the checksum); every other offset is unchanged |
| Rtc.SealSeals | Lilu/Sources/kern_rtc.cpp:160-175 | after the checksum is stored, the checksum cells hold the checksum of the storage as it now is |
| Rtc.SealedIffFixpoint | Lilu/Sources/kern_rtc.cpp:163-175 | storage holds its own checksum exactly when recomputing and storing the checksum leaves it unchanged |
| Rtc.ChecksumUpToDependsOnHashed | Lilu/Sources/kern_rtc.cpp:165-166 | a partial checksum reads only hashed offsets other than the two checksum cells |
| Rtc.ChecksumDependsOnHashed | Lilu/Sources/kern_rtc.cpp:165-166 | two storages that agree on the hashed offsets, apart from the checksum cells, have the same checksum |
| Rtc.ChecksumOfSeal | Lilu/Sources/kern_rtc.cpp:166-174 | storing the checksum does not change the checksum |
| Rtc.SealIdempotent | Lilu/Sources/kern_rtc.cpp:166-174 | recomputing and storing the checksum right after doing so changes nothing |
| Rtc.SealedSpanAt | Lilu/Sources/kern_rtc.cpp:158-175 | after writeDirect with updatecrc, each offset other than the checksum cells holds the last byte written there, or its old byte if none was written there |

## Left out

- `deleter` (kern_patcher.hpp:131-133): Dafny has garbage collection, so releasing a handle has nothing to model.
- The `new` in `create` is modelled as ordinary allocation of the record (`fresh`). The handle is a value.
- Unsupported tags: a handle whose constructor disagrees with its record's width (such as `AllU8(p)` with `p.variant == U16`) can be built, but it breaks the invariant `All.Valid()`. `Wrap`, `Create` and `CreateGiven` establish that invariant, and `All.Patch`/`All.Restore` require it. Under it the `PANIC` default cannot be reached, so it is modelled as `assert false`. `PANIC`'s fatal report is not modelled.
- The `conditional` template machinery and `VV`: replaced by `Size` (a byte count per width) and `Fits` (a value bound).
- The non-x86_64 configuration without U128: only the x86_64 build is modelled.
- Raw pointer semantics beyond "w bytes at an index": alignment, atomicity and concurrent access to patched memory are not modelled.
- The `OSKextLoadedKextSummary` structures (kern_patcher.hpp:136-185) are data layouts with no behaviour.
- `RTCStorage::init`, `deinit`, `read`, `write`, `checkExtendedMemory` (kern_rtc.cpp:11-120): IOKit service lookup and user-client calls, which are foreign APIs.
- Interrupt toggling through `MachInfo::setInterrupts` and the `introff` parameter of `readDirect` and `writeDirect`: this is hardware and concurrency control.
- `SYSLOG`, `DBGLOG` and `PANIC` logging.
- `IOACPIPlatformDevice::ioWrite8` and `ioRead8`: modelled by the abstract `Device`. A data-port access is assumed to reach the cell latched by the last index write. An index write latches any byte, but `IoWrite8` and `IoRead8` require the latched index to be below the bank size for a data-port access. `ReadByte` and `WriteByte` meet this by masking. The RTC hardware's own side effects are not modelled.
- The RTC header (kern_rtc.hpp) is not part of this model. Its constants take the values listed above.
- Rtc.ReadDirect: requires the caller's buffer to be distinct from the device's cell arrays. In the source, the buffer and the device are separate memory.
- Rtc.WriteDirect: requires the buffer to be distinct from the device's cell arrays, for the same reason.
