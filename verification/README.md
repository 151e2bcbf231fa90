# CCSDS data units, CUC time and space packets in Dafny

This project models the core of a Rust library for CCSDS telemetry and
telecommand. The model covers three parts.

- **Data unit.** The `DU` byte buffer (`src/util/du.rs`) is modelled as an
  immutable value. It is a sequence of bytes tagged with the ownership of its
  `HybridVector`:
  - `Owner` may be written and resized;
  - `ReadWrite` may be written but not resized;
  - `ReadOnly` may only be read.

  The model covers:
  - the bit-field engine (`get_bits`, `set_bits` and the `BIT_FILTER` table);
  - the byte engine (`get_bytes`, `set_bytes`);
  - the unsigned engines (`get_unsigned`/`set_unsigned` up to 4 bytes,
    `get_big_unsigned`/`set_big_unsigned` up to 8 bytes);
  - `at`/`at_mut`, `resize`, `dump_str` and the constructors.

  Each operation that writes returns a new `DU` or an error (`Errors.Result`).
  A write that would panic in the library is a precondition, for example a
  write through a read-only buffer or a resize of a borrowed one.
- **CUC time.** This is the CCSDS Unsegmented time Code (`src/ccsds/cuc_time.rs`),
  covering its integer parts:
  - the sixteen p-field codes: two epochs, with or without an embedded
    p-field, and 0 to 3 fine-time bytes;
  - `has_p_field`, `get_data_size` and `get_full_data_size`;
  - the 4-byte coarse time and its conversion to and from seconds;
  - the fine-time bytes;
  - the `Time` constructors, `new_from_p_field` and `get_p_field`;
  - `init_from_bytes` and `update_to_bytes`;
  - `init_from_timespec` and `new_from_timespec`, including the negative-value
    checks. A failed `init_from_timespec` is not rolled back: the coarse time
    it has already written stays.
- **Space packet.** The CCSDS space packet (`src/ccsds/packet.rs`) covers:
  - the six primary-header bit fields and the packet length field;
  - `set_packet_length` and `check_packet_length`;
  - `set_checksum` and `check_checksum`;
  - `Packet::new` and `Packet::new_alloc`.

  The CRC is a function parameter `crc: seq<Byte> -> U16`.

Every bit field is given meaning by a reference definition. `BitView.BufBit`
is bit `g` of a buffer, counted from the most significant bit of byte 0.
`BitView.FieldValue` is the number the bits `p .. p + n - 1` spell, most
significant bit first. `get_bits` and `set_bits` are proved against these
definitions. `get_unsigned` and `set_unsigned` are proved against big-endian
`Bytes.BE`/`Bytes.ToBE`.

Integer widths follow the code as built in release mode in three places:
- the `u32` accumulator of `get_bits` drops the bits shifted out of it;
- a shift by the full width of a `u8` in `get_bits` is taken modulo 8;
- `size - 7` in `check_packet_length` wraps for a 6-byte buffer.

Positions and lengths are otherwise unbounded numbers.

The modules are:
- `Bytes`: powers, big-endian, bits, shifts and bitwise and;
- `Errors`: the `Result` type;
- `BitView`: the reference meaning of bit fields;
- `DataUnit`: the buffer, ownership, byte and unsigned access, resize;
- `BitFields`: `get_bits`/`set_bits`;
- `Dump`: `dump_str`;
- `DuFindings`: the code as written where it differs from what is intended;
- `CucTime`: the CUC time code;
- `SpacePacket`: the space packet.

## Model

| member | source | states |
|---|---|---|
| BitFields.BitFilterMeaning | src/util/du.rs:24-33 | entry `[a][b]` of the filter table clears exactly the bits `a ..= b` of a byte (counted from the most significant bit) and keeps the others |
| DataUnit.ConstructorCapabilities | src/util/du.rs:448-471 | `new` is empty, `new_clone`/`new_owner` hold the given bytes, `new_alloc(n)` holds `n` zeros; owned buffers are writable and resizable, `new_read_write` is writable but not resizable, `new_read_only` is neither |
| DataUnit.AtSetAt | src/util/du.rs:159-172 | writing a byte through `at_mut` and reading it back with `at` gives that byte; every other position reads as before |
| DataUnit.AtIsOneByteUnsigned | src/util/du.rs:159-165 | `at(pos)` is the one-byte unsigned at `pos` |
| DataUnit.GetBytes | src/util/du.rs:270-281 | succeeds exactly when the length is non-zero and the range lies in the buffer, with `InvalidLength` or `OutOfBuffer` otherwise; returns the `len` bytes at `pos` |
| DataUnit.SetBytes | src/util/du.rs:282-300 | accepts the same ranges as `get_bytes`; copies as many of the given bytes as both `len` and their number allow to `pos` and leaves every other byte, the size and the ownership unchanged |
| DataUnit.SetBytesGetBytes | src/util/du.rs:270-300 | reading back a range just written with at least `len` bytes gives the first `len` of them |
| DataUnit.GetUnsigned | src/util/du.rs:312-331 | succeeds exactly for 1 to 4 bytes inside the buffer, with `InvalidLength` or `OutOfBuffer` otherwise; the result is the big-endian number the slice holds, and written back big-endian in `len` bytes it is the slice |
| DataUnit.UnsignedValueFitsMeaning | src/util/du.rs:338-342 | the per-length range test accepts exactly the values below `256^len` |
| DataUnit.SetUnsigned | src/util/du.rs:332-361 | accepts exactly 1 to 4 bytes, a value that fits, and a range inside the buffer, reporting `InvalidLength`, `ValueOutOfRange` or `OutOfBuffer` in that order; the slice then reads big-endian as the value and no other byte changes |
| DataUnit.SetUnsignedGetUnsigned | src/util/du.rs:312-361 | an unsigned value written is read back unchanged |
| DataUnit.GetUnsignedSetUnsigned | src/util/du.rs:312-361 | writing back the unsigned value just read leaves the buffer as it was |
| DataUnit.GetBigUnsigned | src/util/du.rs:372-391 | succeeds exactly for 1 to 8 bytes inside the buffer, with `InvalidLength` or `OutOfBuffer` otherwise; the result is the big-endian number the slice holds, and written back big-endian in `len` bytes it is the slice |
| DataUnit.BigUnsignedValueFitsMeaning | src/util/du.rs:398-406 | the per-length range test of `set_big_unsigned` accepts exactly the values below `256^len` |
| DataUnit.SetBigUnsigned | src/util/du.rs:392-425 | accepts exactly 1 to 8 bytes, a value that fits, and a range inside the buffer, with errors in that order; the slice reads big-endian as the value and no other byte changes |
| DataUnit.SetBigUnsignedGetBigUnsigned | src/util/du.rs:372-425 | a big unsigned value written is read back unchanged |
| DataUnit.GetBigUnsignedSetBigUnsigned | src/util/du.rs:372-425 | writing back the big unsigned value just read leaves the buffer as it was |
| DataUnit.UnsignedAgreesWithBigUnsigned | src/util/du.rs:312-391 | for 1 to 4 bytes the two readers succeed together and return the same value |
| DataUnit.Overwrite | src/util/du.rs:347-358 | the bytes written land at `pos` onwards, one per position; every other byte and the length are kept |
| DataUnit.ResizeContents | src/util/du.rs:511-527 | as written, growing from `m` to `n` bytes appends `n` zeros, giving `m + n` bytes, and shrinking truncates to `n`; the old bytes are kept at their positions and every added byte is zero |
| DataUnit.NewAllocIsResizedNew | src/util/du.rs:456-459 | `new_alloc(n)` is the same buffer as an empty owned buffer resized to `n` |
| BitFields.GetBits | src/util/du.rs:175-206 | succeeds exactly for 1 to 32 bits whose last byte lies in the buffer, with `InvalidLength` or `OutOfBuffer` otherwise; the value is the number the bits `p .. p + l - 1` spell, most significant first |
| BitFields.AccumulatedField | src/util/du.rs:189-201 | the first-byte mask followed by the shift-and-add loop over the following bytes yields the field from bit `p` to the end of the last byte |
| BitFields.GetBitsSound | src/util/du.rs:184-205 | for every accepted field the final right shift drops exactly the trailing bits of the last byte, leaving the field value, which fits in 32 bits |
| BitFields.SetBits | src/util/du.rs:208-258 | succeeds exactly for 1 to 32 bits, a value below `2^l` and a last byte inside the buffer, reporting `InvalidLength`, `ValueOutOfRange` or `OutOfBuffer` in that order; size and ownership are kept |
| BitFields.MergedByteDisjoint | src/util/du.rs:226-254 | the bits kept by the filter and the aligned value bits added to a byte never overlap, so the byte addition never carries |
| BitFields.SetBitsBit | src/util/du.rs:208-258 | after `set_bits` every bit inside the field is the matching bit of the value and every bit outside it is unchanged |
| BitFields.SetBitsGetBits | src/util/du.rs:175-258 | a field written is read back unchanged |
| BitFields.GetBitsSetBits | src/util/du.rs:175-258 | writing back the field value just read leaves the buffer as it was |
| BitFields.SetBitsKeepsOtherField | src/util/du.rs:208-258 | writing one field leaves any field that does not overlap it unchanged |
| BitFields.BitsAgreeWithUnsigned | src/util/du.rs:175-331 | a byte-aligned field of `8 len` bits reads the same as the `len`-byte unsigned value, errors included |
| BitFields.GetBitsKnownAnswers | src/util/du.rs:175-206 | on the bytes `04 03 02 01 34 35 36 37` the 1-bit field at bit 4, the 3-bit field at bit 5, the 8-bit field at bit 12 and the 16-bit field at bit 20 read 0, 4, 48 and 8211 |
| BitView.FieldValueBE | src/util/du.rs:312-331 | the field spanning whole bytes `i .. i + k - 1` is the big-endian number of those bytes |
| Dump.DumpStr | src/util/du.rs:107-148 | an empty buffer dumps as `EMPTY`, and only an empty buffer does |
| Dump.DumpShowsByte | src/util/du.rs:118-145 | each of the first 65536 bytes appears on line `idx / 16` as two lower-case hex digits at columns `6 + 3 (idx % 16)` and `7 + 3 (idx % 16)`, and as its character (or `.`) at column `54 + idx % 16` |
| Dump.LineHead | src/util/du.rs:120 | every line starts with a newline and the four-hex-digit offset |
| Dump.LinePaddingAt | src/util/du.rs:137-141 | a line holding `k` bytes is blank from column `6 + 3 k`, where its hex field ends, up to column 53, where the characters start: three spaces for each missing byte |
| Dump.DumpShowsPadding | src/util/du.rs:119-144 | on line `m` of the dump, holding `k` bytes, the characters at `70 m + 6 + 3 k` up to `70 m + 53` are spaces |
| Dump.HexValueOfHex | src/util/du.rs:120-127 | the hex digits written for a value read back as that value when it fits the width |
| Dump.DumpLength | src/util/du.rs:107-148 | the dump holds 54 characters per started group of 16 bytes plus one per byte shown |
| Dump.DumpIgnoresTail | src/util/du.rs:114-117 | two buffers that agree on their first 65536 bytes and are both at least that long dump identically |
| Dump.DumpKnownAnswers | src/util/du.rs:107-148 | an empty buffer dumps as `EMPTY`; ten zero bytes dump as one line: the offset `0000`, ten `00` pairs, six blank columns and ten dots |
| DuFindings.GetBitsAsWritten | src/util/du.rs:175-206 | the code as written, with the `u8` mask and the `u32` accumulator, accepts and rejects exactly the same fields with the same errors as `BitFields.GetBits` |
| DuFindings.GetBitsAsWrittenAgrees | src/util/du.rs:189-205 | on a field that does not start on a byte boundary and spans at most four bytes, the code as written returns the intended value |
| DuFindings.AccumulateU32Mod | src/util/du.rs:195-202 | the `u32` loop `value = (value << 8) + byte` computes the unbounded accumulation modulo `2^32` |
| DuFindings.FirstByteLost | src/util/du.rs:189-205 | as written, a field that starts on a byte boundary, or one that spans five bytes, loses exactly its bits in the first byte: it reads 0 when all its bits are there, and otherwise reads the number spelled by its remaining bits |
| DuFindings.AlignedFieldReadsZero | src/util/du.rs:193-195 | counterexample: the 8-bit field at bit 0 of the byte `ff` reads 0 as written and 255 as intended |
| DuFindings.WideFieldTruncated | src/util/du.rs:197-202 | counterexample: 32 set bits starting at bit 1 read `0x1ffffff` as written |
| DuFindings.WideFieldIntended | src/util/du.rs:175-206 | the same 32 set bits read `0xffffffff` with the intended reader |
| DuFindings.ResizeIntended | src/util/du.rs:511-527 | the intended resize yields exactly `n` bytes: the old bytes below `n` and zeros after them |
| DuFindings.ResizeAgrees | src/util/du.rs:511-527 | the code as written resizes as intended when shrinking, keeping the size, or growing an empty buffer |
| DuFindings.ResizeOvershoots | src/util/du.rs:511-527 | counterexample: resizing a 24-byte buffer to 32 gives 56 bytes as written and 32 as intended |
| CucTime.FormatOf | src/ccsds/cuc_time.rs:26-42 | a byte is decoded as a p-field exactly when it is one of the sixteen codes, and decoding inverts encoding; any other byte is `InvalidPField` |
| CucTime.FormatOfCode | src/ccsds/cuc_time.rs:26-42 | every valid format's code decodes back to that format |
| CucTime.HasPFieldMeaning | src/ccsds/cuc_time.rs:347-358 | `has_p_field` holds exactly for the codes whose format embeds the p-field |
| CucTime.SizeTables | src/ccsds/cuc_time.rs:361-405 | both size tables accept exactly the sixteen codes and reject others with `InvalidPField`; the data size is 4 coarse plus 0 to 3 fine bytes, and the full size adds one byte when the p-field is embedded |
| CucTime.InitFromSec | src/ccsds/cuc_time.rs:87-105 | succeeds exactly for `0 <= sec < 2^32`, reporting negative and too-large seconds as distinct errors |
| CucTime.InitFromSecToSec | src/ccsds/cuc_time.rs:87-112 | the seconds stored are read back by `to_sec` |
| CucTime.ToSecInitFromSec | src/ccsds/cuc_time.rs:87-112 | every coarse time is rebuilt exactly from its seconds |
| CucTime.ToSecIsBE | src/ccsds/cuc_time.rs:107-126 | `to_sec` is the big-endian number of the four coarse bytes in the order `update_to_bytes` writes them |
| CucTime.CoarseFromBytes | src/ccsds/cuc_time.rs:114-119 | the coarse time read from bytes has exactly the first four bytes as its bytes |
| CucTime.FineFromBytes | src/ccsds/cuc_time.rs:204-211 | the fine time read with width `w` has exactly the first `w` bytes as its bytes |
| CucTime.FineFromNsec | src/ccsds/cuc_time.rs:147-317 | a negative nanosecond count is `NegativeFraction`; otherwise the fine bytes hold the scaled value cut to the width's bytes |
| CucTime.GetPField | src/ccsds/cuc_time.rs:892-911 | the p-field reported for a time decodes to that time's format |
| CucTime.NewTime | src/ccsds/cuc_time.rs:487-582 | a time built for a format has that format |
| CucTime.NewTimeZeroSeconds | src/ccsds/cuc_time.rs:487-582 | a new time has zero seconds |
| CucTime.NewTimeZeroFine | src/ccsds/cuc_time.rs:487-582 | a new time has all fine bytes zero |
| CucTime.NewFromPField | src/ccsds/cuc_time.rs:857-878 | succeeds exactly for the sixteen codes, with `InvalidPField` otherwise; the new time reports the code it was built from and is the zero time of its format |
| CucTime.PFieldRoundTrip | src/ccsds/cuc_time.rs:857-911 | building a time from the p-field of any time gives the zero time of that time's format |
| CucTime.CodeInjective | src/ccsds/cuc_time.rs:892-911 | two times with the same p-field have the same format |
| CucTime.SizesOfFormat | src/ccsds/cuc_time.rs:347-405 | the p-field of a time is valid, has an embedded p-field exactly when the time does, and its two sizes are the time's data size and encoded size |
| CucTime.UpdateToBytesLayout | src/ccsds/cuc_time.rs:1071-1146 | `update_to_bytes` writes the p-field first when it is embedded, then the four coarse bytes and the fine bytes, and leaves later bytes alone |
| CucTime.InitFromBytes | src/ccsds/cuc_time.rs:1001-1069 | reading keeps the time's epoch, p-field choice and fine width |
| CucTime.DecodeEncode | src/ccsds/cuc_time.rs:1001-1146 | reading back bytes written by `update_to_bytes` into any time of the same format yields the written time |
| CucTime.EncodeDecode | src/ccsds/cuc_time.rs:1001-1146 | reading a time and writing it back reproduces the bytes, when an embedded p-field byte already holds the time's code |
| CucTime.InitFromBytesSkipsPField | src/ccsds/cuc_time.rs:1001-1069 | reading ignores the embedded p-field byte |
| CucTime.InitFromTimespec | src/ccsds/cuc_time.rs:913-957 | bad seconds leave the time unchanged and report the error; negative nanoseconds report `NegativeFraction` after the new seconds are stored (no rollback); otherwise both are stored; the format never changes |
| CucTime.NewFromTimespec | src/ccsds/cuc_time.rs:880-890 | succeeds exactly for a valid p-field, seconds in `0 .. 2^32 - 1` and non-negative nanoseconds, reporting each failure with its own error in that order |
| CucTime.NewFromTimespecValue | src/ccsds/cuc_time.rs:880-957 | a time built from a timespec reports the given p-field, holds the given seconds, and its fine bytes hold the scaled nanoseconds cut to the fine width |
| SpacePacket.HeaderLayout | src/ccsds/packet.rs:37-47 | the six header fields lie in the first 32 bits and do not overlap |
| SpacePacket.FieldOfBit | src/ccsds/packet.rs:37-47 | every one of the first 32 bits belongs to a header field |
| SpacePacket.GetField | src/ccsds/packet.rs:62-106 | a header field reads successfully exactly when its bits lie in the buffer; the value is below `2^width` and is the number the field's bits spell |
| SpacePacket.SetField | src/ccsds/packet.rs:62-106 | a header field write fails with `ValueOutOfRange` for values of more than the field's width and with `OutOfBuffer` on a short buffer |
| SpacePacket.SetFieldGetField | src/ccsds/packet.rs:62-106 | a header field written is read back unchanged |
| SpacePacket.SetFieldKeepsOtherField | src/ccsds/packet.rs:62-106 | writing one header field leaves every other header field unchanged |
| SpacePacket.SetFieldKeepsLength | src/ccsds/packet.rs:62-117 | writing a header field leaves the packet length field unchanged |
| SpacePacket.GetLengthField | src/ccsds/packet.rs:110-113 | the length field reads exactly when the buffer has 6 bytes, as the big-endian number in bytes 4 and 5 |
| SpacePacket.SetLengthField | src/ccsds/packet.rs:114-117 | writing the length field succeeds exactly for values up to 65535 on a buffer of at least 6 bytes, with `ValueOutOfRange` or `OutOfBuffer` otherwise, and changes no byte but 4 and 5 |
| SpacePacket.SetLengthFieldGetLengthField | src/ccsds/packet.rs:110-117 | a length field written is read back unchanged |
| SpacePacket.SetPacketLength | src/ccsds/packet.rs:124-134 | succeeds exactly for sizes 7 to 65542, with `PacketTooSmall` below and the range error above; stores `size - 7` in bytes 4 and 5 and changes no other byte |
| SpacePacket.CheckPacketLength | src/ccsds/packet.rs:136-140 | fails only on a buffer too short for the field; true exactly when the field equals `size - 7` |
| SpacePacket.SetPacketLengthChecks | src/ccsds/packet.rs:124-140 | after `set_packet_length` the length checks out |
| SpacePacket.SetPacketLengthConsistent | src/ccsds/packet.rs:124-140 | on a consistent packet `set_packet_length` changes nothing |
| SpacePacket.SetPacketLengthIdempotent | src/ccsds/packet.rs:124-134 | applying `set_packet_length` twice is applying it once |
| SpacePacket.SetChecksum | src/ccsds/packet.rs:143-151 | succeeds exactly on a packet whose length checks out; stores the CRC of all but the last two bytes in the last two and leaves the covered bytes alone |
| SpacePacket.CheckChecksum | src/ccsds/packet.rs:154-162 | true exactly when the length checks out and the last two bytes hold the CRC of the others |
| SpacePacket.ChecksumRoundTrip | src/ccsds/packet.rs:143-162 | on a consistent packet of at least 8 bytes, the checksum just set checks out |
| SpacePacket.NewPacketAlloc | src/ccsds/packet.rs:225-231 | a new packet of `n` bytes is owned, zero outside the length field, and its length checks out |
| SpacePacket.NewPacket | src/ccsds/packet.rs:211-217 | `Packet::new` is seven owned zero bytes |
| SpacePacket.NewPacketFields | src/ccsds/packet.rs:62-231 | every header field of a new packet reads 0 |
| SpacePacket.NewPacketAllocKnownAnswer | src/ccsds/packet.rs:225-231 | a new 32-byte packet stores 25 (`00 19`) in its length field |
| SpacePacket.SevenByteChecksum | src/ccsds/packet.rs:136-162 | as written, a consistent 7-byte packet is accepted by `set_checksum`, whose CRC high byte lands in the low byte of the length field; the checksum check afterwards passes exactly when that high byte is 0 |
| SpacePacket.ChecksumOverwritesLength | src/ccsds/packet.rs:143-162 | counterexample: on the 7-byte `Packet::new` the checksum is accepted, but it overwrites the length byte, so the checksum check then fails |
| SpacePacket.SetChecksumIntended | src/ccsds/packet.rs:143-151 | the intended `set_checksum` also refuses packets too short to hold a header and a CRC |
| SpacePacket.ChecksumRoundTripIntended | src/ccsds/packet.rs:143-162 | with the intended `set_checksum`, every checksum it sets checks out |
| SpacePacket.ByteAlignedFieldsReadZeroAsWritten | src/ccsds/packet.rs:62-65 | as written, the version number and segmentation flags fields, which start on a byte boundary, always read 0 |

## Left out

- Floating point: the CUC fine-time scaling between nanoseconds and fine bytes uses `f64` in the library. It is the function parameter `scale` of `CucTime.FineFromNsec`, `CucTime.InitFromTimespec` and `CucTime.NewFromTimespec`. Only its cut to the width's bytes is modelled.
- CucTime.FineFromNsec: does not state the rounding of the `f64` product, because floating point is not modelled.
- `to_nsec` and `to_timespec` of CUC time are not modelled, because they are floating point too.
- `dump_str` and `Display` of the CUC time types are not modelled, because they are formatting only.
- `DU::dump` is not modelled, because it prints `dump_str` to standard output.
- The CRC itself (`src/util/crc.rs`) is not modelled, because the checksum code only needs its result. It is the parameter `crc`.
- `time.rs`, `config.rs`, `tco.rs`, `asd_time.rs` and `xtime.rs` are not part of this model.
- `TMpacket`, `TCpacket` and the PUS packet repeat `Packet`'s header and constructor code over the same `DU` engine. They are not modelled.
- `Packet::new_clone`, `new_owner`, `new_read_only` and `new_read_write` wrap the matching `DU` constructors. `DataUnit.ConstructorCapabilities` covers those.
- The `*_acc` accessor variants only unpack a position and length pair. They are the same functions as the ones they call.
- Borrowing, lifetimes and aliasing of `ReadWrite`/`ReadOnly` buffers are not modelled. A buffer is a value, and a write returns the new value instead of mutating the borrowed slice.
- Panics become preconditions:
  - `at`/`at_mut` out of bounds;
  - writes through a read-only buffer;
  - `resize` of a borrowed buffer;
  - `Packet::new_alloc` with a size whose length field does not fit.

  Debug-build overflow panics are not modelled; the model follows release-mode wrapping.
- SpacePacket.CheckPacketLength: a 6-byte buffer gives `Ok(false)`. In release mode `size - 7` wraps to the largest `usize`, which no two-byte field equals; a debug build panics instead.
- `BitFields.GetBits` is the intended reader, and the packet header fields use it. The reader as written is `DuFindings.GetBitsAsWritten`; see Findings.
- SpacePacket.GetField: reads through the intended `BitFields.GetBits`. As written, the version number and the segmentation flags, the two fields that start on a byte boundary, always read 0 (`SpacePacket.ByteAlignedFieldsReadZeroAsWritten`). So `SpacePacket.SetFieldGetField` holds for the intended reader only.
- Overflow of position arithmetic is not modelled. The bound checks compute `bit_pos + bit_length - 1` (du.rs:184, 221), `byte_pos + byte_length` (du.rs:276, 288, 343, 407) and `byte_pos + byte_length - 1` (du.rs:318, 378) in `usize`. For a position within the length of the largest `usize`, the sum wraps in release mode, the check passes and the next index panics. The model computes these sums without bound and returns `OutOfBuffer`.

## Findings

| source | as written | input that shows it | evidently intended | confidence | as-written member | corrected member |
|---|---|---|---|---|---|---|
| src/util/du.rs:193-195 | the first-byte mask is `(1_u8 << (8 - f)) - 1`; for a field starting on a byte boundary (`f = 0`) the `u8` shift by 8 wraps to a shift by 0 in release builds, so the mask is 0 (a debug build panics) | `get_bits(0, 8)` on the byte `ff` gives 0; the packet's version number and segmentation flags always read 0 | the mask keeps the low `8 - f` bits, `0xff` when `f = 0`, so the field reads 255 | not executed | DuFindings.FirstByteLost | BitFields.GetBits |
| src/util/du.rs:197-202 | the accumulator is a `u32`, so `value << 8` drops the top bits when a field of up to 32 bits spans five bytes | `get_bits(1, 32)` on `7f ff ff ff ff` gives `0x1ffffff` | the 32-bit field value `0xffffffff` | not executed | DuFindings.FirstByteLost | BitFields.GetBits |
| src/util/du.rs:511-527 | growing pushes `new_size` zeros, not `new_size - old_size` | resizing a 24-byte buffer to 32 gives 56 bytes | a buffer of exactly `new_size` bytes: the code computes `additional = new_size - old_size` and reserves that many bytes (du.rs:514-515) before pushing. The library's own test, du_tests.rs:223-228, asserts the 56-byte dump after `resize(0x20)` on 24 bytes, so the test suite pins the behaviour as written | not executed | DuFindings.ResizeOvershoots | DuFindings.ResizeIntended |
| src/ccsds/packet.rs:143-151 | `set_checksum` only checks that the length is consistent, which a 7-byte packet is; the CRC's high byte then overwrites byte 5, the low byte of the length field | `Packet::new()` then `set_checksum()` is accepted, and `check_checksum()` afterwards is false whenever the CRC is 256 or more | refuse packets shorter than header plus CRC (8 bytes) | not executed | SpacePacket.SevenByteChecksum | SpacePacket.SetChecksumIntended |
