/** The CCSDS space packet (section 4.1.3 of CCSDS 133.0-B-2) as a data unit:
    a six-byte primary header of bit fields, the two-byte packet length at
    bytes 4 and 5, the data field, and a two-byte checksum in the last two
    bytes. The packet length field holds the number of bytes after the
    primary header minus one, which is the buffer size minus 7.

    The CRC routine is a parameter `crc` from the covered bytes to a 16-bit
    value; the library's own routine is a placeholder that returns 1234. */
module SpacePacket {
  import opened Bytes
  import opened Errors
  import opened BitView
  import opened DataUnit
  import opened BitFields
  import DuFindings

  const PrimaryHeaderSize: nat := 6
  const CrcSize: nat := 2

  /* ---------------------------------------------------------------------
     Primary header fields.
     --------------------------------------------------------------------- */

  datatype HeaderField =
    | VersionNumber
    | PacketType
    | DataFieldHeaderFlag
    | ApplicationProcessId
    | SegmentationFlags
    | SequenceControlCount

  /** First bit of a header field, counted from the most significant bit of
      byte 0. */
  function BitPos(h: HeaderField): nat
  {
    match h
    case VersionNumber => 0
    case PacketType => 3
    case DataFieldHeaderFlag => 4
    case ApplicationProcessId => 5
    case SegmentationFlags => 16
    case SequenceControlCount => 18
  }

  /** Width of a header field in bits. */
  function BitLength(h: HeaderField): nat
  {
    match h
    case VersionNumber => 3
    case PacketType => 1
    case DataFieldHeaderFlag => 1
    case ApplicationProcessId => 11
    case SegmentationFlags => 2
    case SequenceControlCount => 14
  }

  /** The field holding bit `g` of the first four header bytes. */
  function FieldOfBit(g: nat): (h: HeaderField)
    requires g < 32
    ensures BitPos(h) <= g < BitPos(h) + BitLength(h)
  {
    if g < 3 then VersionNumber
    else if g < 4 then PacketType
    else if g < 5 then DataFieldHeaderFlag
    else if g < 16 then ApplicationProcessId
    else if g < 18 then SegmentationFlags
    else SequenceControlCount
  }

  /** The header bit fields lie in the first 32 bits, before the packet
      length field, and no two of them share a bit; with `FieldOfBit` they
      tile bits 0 to 31. */
  lemma HeaderLayout(h: HeaderField, k: HeaderField)
    ensures 1 <= BitLength(h) && BitPos(h) + BitLength(h) <= 32
    ensures h != k ==> BitPos(h) + BitLength(h) <= BitPos(k) || BitPos(k) + BitLength(k) <= BitPos(h)
  {
  }

  /** Reads a header field (`get_*_field`). */
  function GetField(du: DU, h: HeaderField): (r: Result<U32>)
    ensures r.Ok? <==> BitPos(h) + BitLength(h) <= 8 * |du.data|
    ensures r.Err? ==> r.error == OutOfBuffer
    ensures r.Ok? ==> r.value < Pow2(BitLength(h)) && r.value == FieldValue(du.data, BitPos(h), BitLength(h))
  {
    HeaderLayout(h, h);
    var r := GetBits(du, BitPos(h), BitLength(h));
    if r.Err? then r
    else
      FieldValueBound(du.data, BitPos(h), BitLength(h));
      r
  }

  /** `set_*_field` passes its checks. */
  predicate SetFieldAccepted(du: DU, h: HeaderField, v: U32)
  {
    v < Pow2(BitLength(h)) && BitPos(h) + BitLength(h) <= 8 * |du.data|
  }

  /** Writes a header field (`set_*_field`): a value too wide for the field
      is rejected before the buffer size is checked. */
  function SetField(du: DU, h: HeaderField, v: U32): (r: Result<DU>)
    requires Writable(du) || !SetFieldAccepted(du, h, v)
    ensures r.Ok? <==> SetFieldAccepted(du, h, v)
    ensures r.Err? && v >= Pow2(BitLength(h)) ==> r.error == ValueOutOfRange
    ensures r.Err? && v < Pow2(BitLength(h)) ==> r.error == OutOfBuffer
    ensures r.Ok? ==> |r.value.data| == |du.data| && r.value.mode == du.mode
  {
    HeaderLayout(h, h);
    SetBits(du, BitPos(h), BitLength(h), v)
  }

  /** Reading a header field back gives the value written. */
  lemma SetFieldGetField(du: DU, h: HeaderField, v: U32)
    requires Writable(du) && SetFieldAccepted(du, h, v)
    ensures GetField(SetField(du, h, v).value, h) == Ok(v)
  {
    HeaderLayout(h, h);
    SetBitsGetBits(du, BitPos(h), BitLength(h), v);
  }

  /** Writing one header field leaves every other header field as it was. */
  lemma SetFieldKeepsOtherField(du: DU, h: HeaderField, v: U32, k: HeaderField)
    requires Writable(du) && SetFieldAccepted(du, h, v) && k != h
    ensures GetField(SetField(du, h, v).value, k) == GetField(du, k)
  {
    HeaderLayout(h, k);
    HeaderLayout(k, h);
    if BitPos(k) + BitLength(k) <= 8 * |du.data| {
      SetBitsKeepsOtherField(du, BitPos(h), BitLength(h), v, BitPos(k), BitLength(k));
    }
  }

  /** Writing a header field leaves the packet length field as it was. */
  lemma SetFieldKeepsLength(du: DU, h: HeaderField, v: U32)
    requires Writable(du) && SetFieldAccepted(du, h, v)
    ensures GetLengthField(SetField(du, h, v).value) == GetLengthField(du)
  {
    HeaderLayout(h, h);
    var r := SetField(du, h, v).value;
    BitsAgreeWithUnsigned(du, 4, 2);
    BitsAgreeWithUnsigned(r, 4, 2);
    if 48 <= 8 * |du.data| {
      SetBitsKeepsOtherField(du, BitPos(h), BitLength(h), v, 32, 16);
    }
  }

  /* ---------------------------------------------------------------------
     The packet length field.
     --------------------------------------------------------------------- */

  /** `get_packet_length_field`: the two bytes at 4 and 5. */
  function GetLengthField(du: DU): (r: Result<U32>)
    ensures r.Ok? <==> |du.data| >= 6
    ensures r.Err? ==> r.error == OutOfBuffer
    ensures r.Ok? ==> r.value == BE(du.data[4..6])
  {
    GetUnsigned(du, 4, 2)
  }

  /** `set_packet_length_field`: the two bytes at 4 and 5. */
  function SetLengthField(du: DU, v: U32): (r: Result<DU>)
    requires Writable(du) || !(v <= 0xFFFF && |du.data| >= 6)
    ensures r.Ok? <==> v <= 0xFFFF && |du.data| >= 6
    ensures r.Err? && v > 0xFFFF ==> r.error == ValueOutOfRange
    ensures r.Err? && v <= 0xFFFF ==> r.error == OutOfBuffer
    ensures r.Ok? ==> |r.value.data| == |du.data| && r.value.mode == du.mode
    ensures r.Ok? ==> forall i :: 0 <= i < |du.data| && i != 4 && i != 5 ==> r.value.data[i] == du.data[i]
  {
    UnsignedValueFitsMeaning(2, v);
    assert Pow256(2) == 0x1_0000;
    SetUnsigned(du, 4, 2, v)
  }

  /** A length field written is read back unchanged. */
  lemma SetLengthFieldGetLengthField(du: DU, v: U32)
    requires Writable(du) && v <= 0xFFFF && |du.data| >= 6
    ensures GetLengthField(SetLengthField(du, v).value) == Ok(v)
  {
    UnsignedValueFitsMeaning(2, v);
    assert Pow256(2) == 0x1_0000;
    SetUnsignedGetUnsigned(du, 4, 2, v);
  }

  /** `set_packet_length`: writes the size minus 7 into the length field.
      A buffer of fewer than 7 bytes is rejected; so is one whose length
      value needs more than 32 bits, and one whose length value needs more
      than 16 bits fails the two-byte range check. */
  function SetPacketLength(du: DU): (r: Result<DU>)
    requires Writable(du) || !(7 <= |du.data| <= 0xFFFF + 7)
    ensures r.Ok? <==> 7 <= |du.data| <= 0xFFFF + 7
    ensures r.Err? && |du.data| < 7 ==> r.error == PacketTooSmall
    ensures r.Err? && |du.data| - 7 > 0xFFFF_FFFF ==> r.error == PacketTooLarge
    ensures r.Err? && 7 <= |du.data| <= 0xFFFF_FFFF + 7 ==> r.error == ValueOutOfRange
    ensures r.Ok? ==> |r.value.data| == |du.data| && r.value.mode == du.mode
    ensures r.Ok? ==> BE(r.value.data[4..6]) == |du.data| - 7
    ensures r.Ok? ==> forall i :: 0 <= i < |du.data| && i != 4 && i != 5 ==> r.value.data[i] == du.data[i]
  {
    if |du.data| < PrimaryHeaderSize + 1 then Err(PacketTooSmall)
    else if |du.data| - PrimaryHeaderSize - 1 > 0xFFFF_FFFF then Err(PacketTooLarge)
    else SetLengthField(du, |du.data| - PrimaryHeaderSize - 1)
  }

  /** `check_packet_length`: whether the length field holds the size minus
      7. A buffer too short for the field is an error. For a 6-byte buffer
      the size minus 7 wraps around to the largest `usize`, which no
      two-byte field equals. */
  function CheckPacketLength(du: DU): (r: Result<bool>)
    ensures r.Ok? <==> |du.data| >= 6
    ensures r.Err? ==> r.error == OutOfBuffer
    ensures r.Ok? ==> (r.value <==> |du.data| >= 7 && BE(du.data[4..6]) == |du.data| - 7)
  {
    var field :- GetLengthField(du);
    Ok(|du.data| >= PrimaryHeaderSize + 1 && field == |du.data| - PrimaryHeaderSize - 1)
  }

  /** After `set_packet_length` the length is consistent. */
  lemma SetPacketLengthChecks(du: DU)
    requires Writable(du) && SetPacketLength(du).Ok?
    ensures CheckPacketLength(SetPacketLength(du).value) == Ok(true)
  {
  }

  /** On a packet whose length is consistent, `set_packet_length` changes
      nothing, so applying it twice is applying it once. */
  lemma SetPacketLengthConsistent(du: DU)
    requires Writable(du) && CheckPacketLength(du) == Ok(true)
    ensures SetPacketLength(du) == Ok(du)
  {
    BEBound(du.data[4..6]);
    assert Pow256(2) == 0x1_0000;
    assert GetUnsigned(du, 4, 2) == Ok(BE(du.data[4..6]));
    GetUnsignedSetUnsigned(du, 4, 2);
  }

  lemma SetPacketLengthIdempotent(du: DU)
    requires Writable(du) && SetPacketLength(du).Ok?
    ensures SetPacketLength(SetPacketLength(du).value) == SetPacketLength(du)
  {
    SetPacketLengthChecks(du);
    SetPacketLengthConsistent(SetPacketLength(du).value);
  }

  /* ---------------------------------------------------------------------
     The checksum.
     --------------------------------------------------------------------- */

  /** The bytes the checksum covers: all but the last two. */
  function Covered(du: DU): seq<Byte>
    requires |du.data| >= CrcSize
  {
    du.data[..|du.data| - CrcSize]
  }

  /** The checksum stored in the last two bytes. */
  function Stored(du: DU): nat
    requires |du.data| >= CrcSize
  {
    BE(du.data[|du.data| - CrcSize..])
  }

  /** `set_checksum`: refuses a packet whose length is inconsistent;
      otherwise writes the CRC of all bytes but the last two into the last
      two bytes. */
  function SetChecksum(du: DU, crc: seq<Byte> -> U16): (r: Result<DU>)
    requires Writable(du) || CheckPacketLength(du) != Ok(true)
    ensures r.Ok? <==> CheckPacketLength(du) == Ok(true)
    ensures r.Err? && |du.data| < 6 ==> r.error == OutOfBuffer
    ensures r.Err? && |du.data| >= 6 ==> r.error == InconsistentLength
    ensures r.Ok? ==> |r.value.data| == |du.data| && r.value.mode == du.mode
    ensures r.Ok? ==> Stored(r.value) == crc(Covered(du))
    ensures r.Ok? ==> Covered(r.value) == Covered(du)
  {
    var consistent :- CheckPacketLength(du);
    if !consistent then Err(InconsistentLength)
    else
      var pos := |du.data| - CrcSize;
      var r := SetUnsigned(du, pos, CrcSize, crc(du.data[..pos]));
      assert r.Ok? by {
        assert Pow256(2) == 0x1_0000;
        UnsignedValueFitsMeaning(2, crc(du.data[..pos]));
      }
      assert r.value.data[pos..pos + CrcSize] == r.value.data[pos..];
      r
  }

  /** `check_checksum`: false for a packet whose length is inconsistent;
      otherwise whether the last two bytes hold the CRC of the others. */
  function CheckChecksum(du: DU, crc: seq<Byte> -> U16): (r: Result<bool>)
    ensures r.Ok? <==> |du.data| >= 6
    ensures r.Err? ==> r.error == OutOfBuffer
    ensures r.Ok? ==> (r.value <==> CheckPacketLength(du) == Ok(true) && Stored(du) == crc(Covered(du)))
  {
    var consistent :- CheckPacketLength(du);
    if !consistent then Ok(false)
    else
      var pos := |du.data| - CrcSize;
      // The length check leaves at least 7 bytes, so this read cannot fail.
      var stored := GetUnsigned(du, pos, CrcSize).value;
      assert du.data[pos..pos + CrcSize] == du.data[pos..];
      Ok(stored == crc(du.data[..pos]))
  }

  /** A packet of at least 8 bytes with a consistent length passes the
      checksum check after `set_checksum`. */
  lemma ChecksumRoundTrip(du: DU, crc: seq<Byte> -> U16)
    requires Writable(du) && CheckPacketLength(du) == Ok(true) && |du.data| >= 8
    ensures CheckChecksum(SetChecksum(du, crc).value, crc) == Ok(true)
  {
    var r := SetChecksum(du, crc).value;
    assert r.data[4..6] == Covered(r)[4..6] == Covered(du)[4..6] == du.data[4..6];
  }

  /* ---------------------------------------------------------------------
     Constructors.
     --------------------------------------------------------------------- */

  /** `Packet::new_alloc`: `n` zero bytes with the length field set; the
      library panics when `set_packet_length` fails. */
  function NewPacketAlloc(n: nat): (r: DU)
    requires 7 <= n <= 0xFFFF + 7
    ensures |r.data| == n && r.mode == Owner
    ensures CheckPacketLength(r) == Ok(true)
    ensures forall i :: 0 <= i < n && i != 4 && i != 5 ==> r.data[i] == 0
  {
    SetPacketLength(NewAlloc(n)).value
  }

  /** `Packet::new`: the smallest packet, seven bytes. */
  function NewPacket(): (r: DU)
    ensures r.data == Zeros(7) && r.mode == Owner
  {
    var r := NewPacketAlloc(7);
    assert BE(r.data[4..6]) == 0;
    assert r.data[4..6] == [r.data[4], r.data[5]];
    assert r.data == Zeros(7);
    r
  }

  /** Every header field of a freshly allocated packet reads 0. */
  lemma NewPacketFields(n: nat, h: HeaderField)
    requires 7 <= n <= 0xFFFF + 7
    ensures GetField(NewPacketAlloc(n), h) == Ok(0)
  {
    var r := NewPacketAlloc(n);
    HeaderLayout(h, h);
    forall g | BitPos(h) <= g < BitPos(h) + BitLength(h)
      ensures BufBit(r.data, g) == Bit(0, BitPos(h) + BitLength(h) - 1 - g)
    {
      BitZero(7 - g % 8);
      BitZero(BitPos(h) + BitLength(h) - 1 - g);
    }
    FieldValueOfBits(r.data, BitPos(h), BitLength(h), 0);
  }

  /** A 32-byte packet has 25 in its length field: bytes 4 and 5 are 0x00
      and 0x19. */
  lemma NewPacketAllocKnownAnswer()
    ensures NewPacketAlloc(32).data[4] == 0x00 && NewPacketAlloc(32).data[5] == 0x19
  {
    var r := NewPacketAlloc(32);
    var s := r.data[4..6];
    assert BE(s) == 25;
    assert s == [r.data[4], r.data[5]];
  }

  /* ---------------------------------------------------------------------
     Findings on the packet layer.
     --------------------------------------------------------------------- */

  /** The library's placeholder CRC routine. */
  function StubCrc(bytes: seq<Byte>): U16
  {
    1234
  }

  /** Two big-endian bytes. */
  lemma BETwo(s: seq<Byte>)
    requires |s| == 2
    ensures BE(s) == (s[0] as int) * 256 + s[1] as int
  {
    var head := s[..1];
    assert head[..0] == [];
    assert BE(head) == s[0];
    assert s[..|s| - 1] == head;
  }

  /** Bytes 4 to 6 of a 7-byte buffer whose length field held 0, after
      bytes 5 and 6 were overwritten with `c`: the length field is 0 again
      exactly when `c` is below 256. */
  lemma OverlapBytes(before: seq<Byte>, after: seq<Byte>, c: nat)
    requires |before| == 7 && |after| == 7
    requires BE(before[4..6]) == 0 && after[..5] == before[..5] && BE(after[5..]) == c
    ensures BE(after[4..6]) == 0 <==> c < 256
  {
    BETwo(before[4..6]);
    BETwo(after[4..6]);
    BETwo(after[5..]);
    assert after[4] == before[4] == 0;
  }

  /** On a 7-byte packet the checksum goes to bytes 5 and 6, and byte 5 is
      the low byte of the length field: `set_checksum` accepts the packet,
      and the checksum check afterwards passes exactly when the checksum's
      high byte is 0. */
  lemma SevenByteChecksum(du: DU, crc: seq<Byte> -> U16)
    requires Writable(du) && |du.data| == 7 && CheckPacketLength(du) == Ok(true)
    ensures SetChecksum(du, crc).Ok?
    ensures CheckChecksum(SetChecksum(du, crc).value, crc) == Ok(crc(Covered(du)) < 256)
  {
    var r := SetChecksum(du, crc).value;
    OverlapBytes(du.data, r.data, crc(Covered(du)));
  }

  /** The packet `new` builds, with a checksum of 1234, fails the checksum
      check right after `set_checksum`. */
  lemma ChecksumOverwritesLength()
    ensures SetChecksum(NewPacket(), StubCrc).Ok?
    ensures CheckChecksum(SetChecksum(NewPacket(), StubCrc).value, StubCrc) == Ok(false)
  {
    SevenByteChecksum(NewPacket(), StubCrc);
  }

  /** `set_checksum` as evidently intended: the checksum must not overlap
      the primary header, so a packet needs at least 8 bytes. */
  function SetChecksumIntended(du: DU, crc: seq<Byte> -> U16): (r: Result<DU>)
    requires Writable(du) || CheckPacketLength(du) != Ok(true)
    ensures r.Ok? <==> CheckPacketLength(du) == Ok(true) && |du.data| >= PrimaryHeaderSize + CrcSize
    ensures r.Err? && 6 <= |du.data| < 8 && CheckPacketLength(du) == Ok(true) ==> r.error == PacketTooSmall
  {
    var consistent :- CheckPacketLength(du);
    if !consistent then Err(InconsistentLength)
    else if |du.data| < PrimaryHeaderSize + CrcSize then Err(PacketTooSmall)
    else SetChecksum(du, crc)
  }

  /** Every packet the intended `set_checksum` accepts passes the checksum
      check afterwards. */
  lemma ChecksumRoundTripIntended(du: DU, crc: seq<Byte> -> U16)
    requires Writable(du) && SetChecksumIntended(du, crc).Ok?
    ensures CheckChecksum(SetChecksumIntended(du, crc).value, crc) == Ok(true)
  {
    ChecksumRoundTrip(du, crc);
  }

  /** As the code is written, the version number and the segmentation
      flags, the two header fields that start on a byte boundary, always
      read as 0 in a release build. */
  lemma ByteAlignedFieldsReadZeroAsWritten(du: DU, h: HeaderField)
    requires h == VersionNumber || h == SegmentationFlags
    requires BitPos(h) + BitLength(h) <= 8 * |du.data|
    ensures DuFindings.GetBitsAsWritten(du, BitPos(h), BitLength(h)) == Ok(0)
  {
    DuFindings.FirstByteLost(du, BitPos(h), BitLength(h));
  }
}
