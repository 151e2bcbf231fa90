/** The data unit: a byte buffer with bounds-checked, big-endian access to
    single bytes, byte spans and unsigned integers of 1 to 4 (`u32`) or 1 to
    8 (`u64`) bytes. Bit-field access lives in module BitFields.

    The library's data unit wraps a vector it owns, a mutable borrowed slice
    or an immutable borrowed slice. Here a data unit is an immutable value
    holding the bytes and a tag for that ownership mode; every operation that
    writes returns the new data unit, and a rejected call returns an error
    and no data unit, so the caller keeps the old bytes: every validation
    check runs before the first write. Writing through a read-only unit and
    resizing a borrowed one panic in the library; both are preconditions. */
module DataUnit {
  import opened Bytes
  import opened Errors

  /** How the buffer is held: an owned vector, or a borrowed slice that may
      or may not be written. */
  datatype Mode = Owner | ReadWrite | ReadOnly

  datatype DU = DU(data: seq<Byte>, mode: Mode)

  /** The buffer can be written: asking a read-only unit for its mutable
      buffer panics. */
  predicate Writable(du: DU)
  {
    du.mode != ReadOnly
  }

  /** The buffer can change its size: only an owned vector can. */
  predicate Resizable(du: DU)
  {
    du.mode == Owner
  }

  function Zeros(n: nat): (r: seq<Byte>)
    ensures |r| == n
    ensures forall i :: 0 <= i < n ==> r[i] == 0
  {
    if n == 0 then [] else Zeros(n - 1) + [0]
  }

  /* ---------------------------------------------------------------------
     Constructors.
     --------------------------------------------------------------------- */

  /** An empty owned buffer. */
  function New(): DU
  {
    DU([], Owner)
  }

  /** An owned copy of a vector. */
  function NewClone(value: seq<Byte>): DU
  {
    DU(value, Owner)
  }

  /** An owned buffer of `size` zero bytes. */
  function NewAlloc(size: nat): DU
  {
    DU(Zeros(size), Owner)
  }

  /** Takes ownership of a vector. */
  function NewOwner(value: seq<Byte>): DU
  {
    DU(value, Owner)
  }

  /** Borrows a slice for reading only. */
  function NewReadOnly(reference: seq<Byte>): DU
  {
    DU(reference, ReadOnly)
  }

  /** Borrows a slice for reading and writing. */
  function NewReadWrite(reference: seq<Byte>): DU
  {
    DU(reference, ReadWrite)
  }

  /** What each constructor lets the caller do: the owning constructors give
      a unit that can be written and resized, a read-write borrow one that can
      be written but not resized, a read-only borrow neither. Each one holds
      exactly the bytes it was given. */
  lemma ConstructorCapabilities(value: seq<Byte>, size: nat)
    ensures New().data == [] && Writable(New()) && Resizable(New())
    ensures NewClone(value).data == value && Writable(NewClone(value)) && Resizable(NewClone(value))
    ensures NewOwner(value).data == value && Writable(NewOwner(value)) && Resizable(NewOwner(value))
    ensures |NewAlloc(size).data| == size && Writable(NewAlloc(size)) && Resizable(NewAlloc(size))
    ensures forall i :: 0 <= i < size ==> NewAlloc(size).data[i] == 0
    ensures NewReadWrite(value).data == value && Writable(NewReadWrite(value)) && !Resizable(NewReadWrite(value))
    ensures NewReadOnly(value).data == value && !Writable(NewReadOnly(value)) && !Resizable(NewReadOnly(value))
  {
  }

  /* ---------------------------------------------------------------------
     Single bytes.
     --------------------------------------------------------------------- */

  /** The byte at `pos`; the library panics when `pos` is not below the size. */
  function At(du: DU, pos: nat): Byte
    requires pos < |du.data|
  {
    du.data[pos]
  }

  /** Overwrites the byte at `pos` through the mutable index operator. */
  function SetAt(du: DU, pos: nat, b: Byte): (r: DU)
    requires pos < |du.data| && Writable(du)
    ensures |r.data| == |du.data| && r.mode == du.mode
  {
    DU(du.data[pos := b], du.mode)
  }

  /** Reading a byte back after writing it gives the byte written, and every
      other byte reads as before. */
  lemma AtSetAt(du: DU, pos: nat, b: Byte, other: nat)
    requires pos < |du.data| && Writable(du) && other < |du.data|
    ensures At(SetAt(du, pos, b), pos) == b
    ensures other != pos ==> At(SetAt(du, pos, b), other) == At(du, other)
  {
  }

  /* ---------------------------------------------------------------------
     Byte spans.
     --------------------------------------------------------------------- */

  function GetBytes(du: DU, pos: nat, len: nat): (r: Result<seq<Byte>>)
    ensures r.Ok? <==> 0 < len && pos + len <= |du.data|
    ensures r.Err? && len == 0 ==> r.error == InvalidLength
    ensures r.Err? && len > 0 ==> r.error == OutOfBuffer
    ensures r.Ok? ==> |r.value| == len && forall i :: 0 <= i < len ==> r.value[i] == du.data[pos + i]
  {
    if len == 0 then Err(InvalidLength)
    else if pos + len > |du.data| then Err(OutOfBuffer)
    else Ok(du.data[pos..pos + len])
  }

  /** `set_bytes` passes its checks and reaches the copy loop. */
  predicate SetBytesAccepted(du: DU, pos: nat, len: nat)
  {
    0 < len && pos + len <= |du.data|
  }

  function Min(a: nat, b: nat): nat
  {
    if a <= b then a else b
  }

  /** Copies `min(len, |bytes|)` bytes of `bytes` to `pos ..`. The mutable
      buffer is requested only inside the copy loop, so a read-only unit
      panics only when at least one byte is copied. */
  function SetBytes(du: DU, pos: nat, len: nat, bytes: seq<Byte>): (r: Result<DU>)
    requires Writable(du) || !SetBytesAccepted(du, pos, len) || |bytes| == 0
    ensures r.Ok? <==> SetBytesAccepted(du, pos, len)
    ensures r.Err? && len == 0 ==> r.error == InvalidLength
    ensures r.Err? && len > 0 ==> r.error == OutOfBuffer
    ensures r.Ok? ==> |r.value.data| == |du.data| && r.value.mode == du.mode
    ensures r.Ok? ==> forall i :: 0 <= i < |du.data| ==>
      r.value.data[i] == if pos <= i < pos + Min(len, |bytes|) then bytes[i - pos] else du.data[i]
  {
    if len == 0 then Err(InvalidLength)
    else if pos + len > |du.data| then Err(OutOfBuffer)
    else
      var n := Min(len, |bytes|);
      Ok(DU(du.data[..pos] + bytes[..n] + du.data[pos + n..], du.mode))
  }

  /** Bytes written with `set_bytes` from a long enough source read back with
      `get_bytes`. */
  lemma SetBytesGetBytes(du: DU, pos: nat, len: nat, bytes: seq<Byte>)
    requires Writable(du) && SetBytesAccepted(du, pos, len) && len <= |bytes|
    ensures GetBytes(SetBytes(du, pos, len, bytes).value, pos, len) == Ok(bytes[..len])
  {
    var r := SetBytes(du, pos, len, bytes).value;
    assert r.data[pos..pos + len] == bytes[..len];
  }

  /* ---------------------------------------------------------------------
     Unsigned integers of 1 to 4 bytes.
     --------------------------------------------------------------------- */

  /** The big-endian value of `len` bytes at `pos`, accumulated into a `u32`. */
  function GetUnsigned(du: DU, pos: nat, len: nat): (r: Result<U32>)
    ensures r.Ok? <==> 1 <= len <= 4 && pos + len <= |du.data|
    ensures r.Err? && !(1 <= len <= 4) ==> r.error == InvalidLength
    ensures r.Err? && 1 <= len <= 4 ==> r.error == OutOfBuffer
    ensures r.Ok? ==> r.value == BE(du.data[pos..pos + len])
    ensures r.Ok? ==> ToBE(r.value, len) == du.data[pos..pos + len]
  {
    if len == 0 || len > 4 then Err(InvalidLength)
    else if pos + len - 1 >= |du.data| then Err(OutOfBuffer)
    else
      var s := du.data[pos..pos + len];
      BEBound(s);
      Pow256Monotonic(len, 4);
      ToBEOfBE(s);
      Ok(BE(s))
  }

  /** The explicit range check of `set_unsigned`: widths 1 to 3 reject a value
      that needs more bytes; width 4 accepts every `u32`. */
  predicate UnsignedValueFits(len: nat, value: U32)
  {
    !((len == 1 && value > 255) || (len == 2 && value > 65535) || (len == 3 && value > 16777215))
  }

  /** The range check accepts exactly the values that fit in `len` bytes. */
  lemma UnsignedValueFitsMeaning(len: nat, value: U32)
    requires 1 <= len <= 4
    ensures UnsignedValueFits(len, value) <==> value < Pow256(len)
  {
    assert Pow256(1) == 256 && Pow256(2) == 65536 && Pow256(3) == 16777216 && Pow256(4) == 0x1_0000_0000;
  }

  /** `data` with the bytes from `pos` on replaced by `bytes`. */
  function Overwrite(data: seq<Byte>, pos: nat, bytes: seq<Byte>): (r: seq<Byte>)
    requires pos + |bytes| <= |data|
    ensures |r| == |data| && r[pos..pos + |bytes|] == bytes
    ensures forall i :: 0 <= i < |data| && !(pos <= i < pos + |bytes|) ==> r[i] == data[i]
  {
    data[..pos] + bytes + data[pos + |bytes|..]
  }

  /** Overwriting bytes with themselves changes nothing. */
  lemma OverwriteSlice(data: seq<Byte>, pos: nat, len: nat)
    requires pos + len <= |data|
    ensures Overwrite(data, pos, data[pos..pos + len]) == data
  {
    assert data[..pos] + data[pos..pos + len] + data[pos + len..] == data;
  }

  predicate SetUnsignedAccepted(du: DU, pos: nat, len: nat, value: U32)
  {
    1 <= len <= 4 && UnsignedValueFits(len, value) && pos + len <= |du.data|
  }

  /** Writes `value` big-endian into bytes `pos .. pos + len - 1`. The checks
      run in the order length, value, buffer range. */
  function SetUnsigned(du: DU, pos: nat, len: nat, value: U32): (r: Result<DU>)
    requires Writable(du) || !SetUnsignedAccepted(du, pos, len, value)
    ensures r.Ok? <==> SetUnsignedAccepted(du, pos, len, value)
    ensures r.Err? && !(1 <= len <= 4) ==> r.error == InvalidLength
    ensures r.Err? && 1 <= len <= 4 && !UnsignedValueFits(len, value) ==> r.error == ValueOutOfRange
    ensures r.Err? && 1 <= len <= 4 && UnsignedValueFits(len, value) ==> r.error == OutOfBuffer
    ensures r.Ok? ==> |r.value.data| == |du.data| && r.value.mode == du.mode
    ensures r.Ok? ==> BE(r.value.data[pos..pos + len]) == value
    ensures r.Ok? ==> forall i :: 0 <= i < |du.data| && !(pos <= i < pos + len) ==> r.value.data[i] == du.data[i]
  {
    if len == 0 || len > 4 then Err(InvalidLength)
    else if !UnsignedValueFits(len, value) then Err(ValueOutOfRange)
    else if pos + len > |du.data| then Err(OutOfBuffer)
    else
      UnsignedValueFitsMeaning(len, value);
      BEOfToBEExact(value, len);
      Ok(DU(Overwrite(du.data, pos, ToBE(value, len)), du.mode))
  }

  /** Reading back an unsigned integer just written gives the value. */
  lemma SetUnsignedGetUnsigned(du: DU, pos: nat, len: nat, value: U32)
    requires Writable(du) && SetUnsignedAccepted(du, pos, len, value)
    ensures GetUnsigned(SetUnsigned(du, pos, len, value).value, pos, len) == Ok(value)
  {
    var r := SetUnsigned(du, pos, len, value).value;
    ToBEOfBE(r.data[pos..pos + len]);
  }

  /** Writing back the value just read changes nothing. */
  lemma GetUnsignedSetUnsigned(du: DU, pos: nat, len: nat)
    requires Writable(du) && GetUnsigned(du, pos, len).Ok?
    ensures SetUnsigned(du, pos, len, GetUnsigned(du, pos, len).value) == Ok(du)
  {
    var s := du.data[pos..pos + len];
    var v := GetUnsigned(du, pos, len).value;
    assert ToBE(v, len) == s;
    BEBound(s);
    UnsignedValueFitsMeaning(len, v);
    OverwriteSlice(du.data, pos, len);
    assert SetUnsigned(du, pos, len, v) == Ok(DU(Overwrite(du.data, pos, ToBE(v, len)), du.mode));
  }

  /* ---------------------------------------------------------------------
     Unsigned integers of 1 to 8 bytes.
     --------------------------------------------------------------------- */

  /** The big-endian value of `len` bytes at `pos`, accumulated into a `u64`. */
  function GetBigUnsigned(du: DU, pos: nat, len: nat): (r: Result<U64>)
    ensures r.Ok? <==> 1 <= len <= 8 && pos + len <= |du.data|
    ensures r.Err? && !(1 <= len <= 8) ==> r.error == InvalidLength
    ensures r.Err? && 1 <= len <= 8 ==> r.error == OutOfBuffer
    ensures r.Ok? ==> r.value == BE(du.data[pos..pos + len])
    ensures r.Ok? ==> ToBE(r.value, len) == du.data[pos..pos + len]
  {
    if len == 0 || len > 8 then Err(InvalidLength)
    else if pos + len - 1 >= |du.data| then Err(OutOfBuffer)
    else
      var s := du.data[pos..pos + len];
      BEBound(s);
      Pow256Monotonic(len, 8);
      assert Pow256(8) == 0x1_0000_0000_0000_0000;
      ToBEOfBE(s);
      Ok(BE(s))
  }

  /** The explicit range check of `set_big_unsigned`: widths 1 to 7 reject a
      value that needs more bytes; width 8 accepts every `u64`. */
  predicate BigUnsignedValueFits(len: nat, value: U64)
  {
    !((len == 1 && value > 255) ||
      (len == 2 && value > 65535) ||
      (len == 3 && value > 16777215) ||
      (len == 4 && value > 4294967295) ||
      (len == 5 && value > 1099511627775) ||
      (len == 6 && value > 281474976710655) ||
      (len == 7 && value > 72057594037927935))
  }

  lemma BigUnsignedValueFitsMeaning(len: nat, value: U64)
    requires 1 <= len <= 8
    ensures BigUnsignedValueFits(len, value) <==> value < Pow256(len)
  {
    assert Pow256(1) == 256 && Pow256(2) == 65536 && Pow256(3) == 16777216 && Pow256(4) == 0x1_0000_0000;
    assert Pow256(5) == 0x100_0000_0000 && Pow256(6) == 0x1_0000_0000_0000;
    assert Pow256(7) == 0x100_0000_0000_0000 && Pow256(8) == 0x1_0000_0000_0000_0000;
  }

  predicate SetBigUnsignedAccepted(du: DU, pos: nat, len: nat, value: U64)
  {
    1 <= len <= 8 && BigUnsignedValueFits(len, value) && pos + len <= |du.data|
  }

  /** Writes `value` big-endian into bytes `pos .. pos + len - 1`. The checks
      run in the order length, value, buffer range. */
  function SetBigUnsigned(du: DU, pos: nat, len: nat, value: U64): (r: Result<DU>)
    requires Writable(du) || !SetBigUnsignedAccepted(du, pos, len, value)
    ensures r.Ok? <==> SetBigUnsignedAccepted(du, pos, len, value)
    ensures r.Err? && !(1 <= len <= 8) ==> r.error == InvalidLength
    ensures r.Err? && 1 <= len <= 8 && !BigUnsignedValueFits(len, value) ==> r.error == ValueOutOfRange
    ensures r.Err? && 1 <= len <= 8 && BigUnsignedValueFits(len, value) ==> r.error == OutOfBuffer
    ensures r.Ok? ==> |r.value.data| == |du.data| && r.value.mode == du.mode
    ensures r.Ok? ==> BE(r.value.data[pos..pos + len]) == value
    ensures r.Ok? ==> forall i :: 0 <= i < |du.data| && !(pos <= i < pos + len) ==> r.value.data[i] == du.data[i]
  {
    if len == 0 || len > 8 then Err(InvalidLength)
    else if !BigUnsignedValueFits(len, value) then Err(ValueOutOfRange)
    else if pos + len > |du.data| then Err(OutOfBuffer)
    else
      BigUnsignedValueFitsMeaning(len, value);
      BEOfToBEExact(value, len);
      Ok(DU(Overwrite(du.data, pos, ToBE(value, len)), du.mode))
  }

  /** Reading back an integer just written gives the value. */
  lemma SetBigUnsignedGetBigUnsigned(du: DU, pos: nat, len: nat, value: U64)
    requires Writable(du) && SetBigUnsignedAccepted(du, pos, len, value)
    ensures GetBigUnsigned(SetBigUnsigned(du, pos, len, value).value, pos, len) == Ok(value)
  {
    var r := SetBigUnsigned(du, pos, len, value).value;
    ToBEOfBE(r.data[pos..pos + len]);
  }

  /** Writing back the value just read changes nothing. */
  lemma GetBigUnsignedSetBigUnsigned(du: DU, pos: nat, len: nat)
    requires Writable(du) && GetBigUnsigned(du, pos, len).Ok?
    ensures SetBigUnsigned(du, pos, len, GetBigUnsigned(du, pos, len).value) == Ok(du)
  {
    var s := du.data[pos..pos + len];
    var v := GetBigUnsigned(du, pos, len).value;
    assert ToBE(v, len) == s;
    BEBound(s);
    BigUnsignedValueFitsMeaning(len, v);
    OverwriteSlice(du.data, pos, len);
    assert SetBigUnsigned(du, pos, len, v) == Ok(DU(Overwrite(du.data, pos, ToBE(v, len)), du.mode));
  }

  /** For widths 1 to 4 the `u32` and `u64` accessors read the same number. */
  lemma UnsignedAgreesWithBigUnsigned(du: DU, pos: nat, len: nat)
    requires 1 <= len <= 4
    ensures GetUnsigned(du, pos, len).Ok? == GetBigUnsigned(du, pos, len).Ok?
    ensures GetUnsigned(du, pos, len).Ok? ==> GetUnsigned(du, pos, len).value == GetBigUnsigned(du, pos, len).value
  {
  }

  /** A byte read with the index operator is the one-byte unsigned integer there. */
  lemma AtIsOneByteUnsigned(du: DU, pos: nat)
    requires pos < |du.data|
    ensures GetUnsigned(du, pos, 1) == Ok(At(du, pos) as U32)
  {
    var s := du.data[pos..pos + 1];
    assert s[..0] == [];
    assert BE(s) == BE(s[..0]) * 256 + s[0];
    assert BE(s) == du.data[pos];
    assert GetUnsigned(du, pos, 1).value == BE(s);
  }

  /* ---------------------------------------------------------------------
     Resizing.
     --------------------------------------------------------------------- */

  /** Changes the size of an owned buffer. Shrinking, or keeping the size,
      keeps the first `n` bytes. Growing pushes `n` zero bytes, not
      `n - old` of them, so the buffer ends up `old + n` bytes long. */
  function Resize(du: DU, n: nat): (r: DU)
    requires Resizable(du)
    ensures r.mode == Owner
  {
    if |du.data| < n then DU(du.data + Zeros(n), du.mode)
    else DU(du.data[..n], du.mode)
  }

  /** What `resize` does to the size and the bytes: the old bytes up to the
      new size are kept, and any byte past the old end is zero. */
  lemma ResizeContents(du: DU, n: nat)
    requires Resizable(du)
    ensures |Resize(du, n).data| == if |du.data| < n then |du.data| + n else n
    ensures forall i :: 0 <= i < |Resize(du, n).data| ==>
      Resize(du, n).data[i] == if i < |du.data| then du.data[i] else 0
  {
  }

  /** Allocating `n` zero bytes is the same as growing an empty buffer. */
  lemma NewAllocIsResizedNew(n: nat)
    ensures NewAlloc(n) == Resize(New(), n)
  {
    assert [] + Zeros(n) == Zeros(n);
  }
}
