/** Bit-field access of the data unit (`get_bits`, `set_bits`): fields of 1
    to 32 bits at any bit position, bits numbered from the most significant
    bit of byte 0. Both operations are proved against the reference reading
    of module BitView: `GetBits` returns the field's value, and `SetBits`
    stores the value in the field's bits and changes no other bit.

    `GetBits` here is the reading the code evidently intends: it masks the
    first byte with its low `8 - f` bits for every start offset `f`, and its
    accumulator does not lose high bits. Module DuFindings models the
    code as written, which differs from this in both respects. */
module BitFields {
  import opened Bytes
  import opened BitView
  import opened Errors
  import opened DataUnit

  /** `BitFilter[first][last]` keeps the bits of a byte outside the positions
      `first .. last`, counted from the byte's most significant bit; only the
      entries with `first <= last` are used. */
  const BitFilter: seq<seq<Byte>> := [
    [0x7f, 0x3f, 0x1f, 0x0f, 0x07, 0x03, 0x01, 0x00],
    [   0, 0xbf, 0x9f, 0x8f, 0x87, 0x83, 0x81, 0x80],
    [   0,    0, 0xdf, 0xcf, 0xc7, 0xc3, 0xc1, 0xc0],
    [   0,    0,    0, 0xef, 0xe7, 0xe3, 0xe1, 0xe0],
    [   0,    0,    0,    0, 0xf7, 0xf3, 0xf1, 0xf0],
    [   0,    0,    0,    0,    0, 0xfb, 0xf9, 0xf8],
    [   0,    0,    0,    0,    0,    0, 0xfd, 0xfc],
    [   0,    0,    0,    0,    0,    0,    0, 0xfe]
  ]

  /** Every used entry is `a` leading one-bits, `b - a + 1` zero-bits and
      `7 - b` trailing one-bits. */
  lemma BitFilterClosedForm(a: nat, b: nat)
    requires a <= b < 8
    ensures BitFilter[a][b] == 255 - Pow2(8 - a) + Pow2(7 - b)
  {
    assert Pow2(0) == 1 && Pow2(1) == 2 && Pow2(2) == 4 && Pow2(3) == 8;
    assert Pow2(4) == 16 && Pow2(5) == 32 && Pow2(6) == 64 && Pow2(7) == 128 && Pow2(8) == 256;
  }

  lemma MulSubOne(x: int, y: int)
    ensures (x - 1) * y == x * y - y
  {
  }

  /** Every used entry is the `a` high ones of a byte plus the `7 - b` low
      ones. */
  lemma BitFilterSplit(a: nat, b: nat)
    requires a <= b < 8
    ensures BitFilter[a][b] == Shl(Pow2(a) - 1, 8 - a) + (Pow2(7 - b) - 1)
  {
    BitFilterClosedForm(a, b);
    ShlIsMul(Pow2(a) - 1, 8 - a);
    Pow2Add(a, 8 - a);
    assert Pow2(8) == 256;
    MulSubOne(Pow2(a), Pow2(8 - a));
  }

  /** The `a` high ones of a byte. */
  lemma HighOnesBit(a: nat, w: nat)
    requires a <= 8
    ensures Bit(Shl(Pow2(a) - 1, 8 - a), w) <==> 8 - a <= w < 8
  {
    ShlBit(Pow2(a) - 1, 8 - a, w);
    if 8 - a <= w {
      LowMaskBit(a, w - (8 - a));
    }
  }

  /** `BitFilter[a][b]` clears exactly the bits at positions `a .. b` counted
      from the most significant bit (bit `w` of the byte is position `7 - w`). */
  lemma BitFilterMeaning(a: nat, b: nat, w: nat)
    requires a <= b < 8 && w < 8
    ensures Bit(BitFilter[a][b], w) <==> !(a <= 7 - w <= b)
  {
    BitFilterSplit(a, b);
    var highOnes := Shl(Pow2(a) - 1, 8 - a);
    var lowOnes := Pow2(7 - b) - 1;
    forall u | 0 <= u
      ensures !(Bit(highOnes, u) && Bit(lowOnes, u))
    {
      LowMaskBit(7 - b, u);
      HighOnesBit(a, u);
    }
    DisjointAddBit(highOnes, lowOnes, w);
    LowMaskBit(7 - b, w);
    HighOnesBit(a, w);
  }

  /* ---------------------------------------------------------------------
     Reading a bit field.
     --------------------------------------------------------------------- */

  /** The field fits the checks of `get_bits` and `set_bits`: 1 to 32 bits,
      the last of them inside the buffer. */
  predicate FieldAccepted(du: DU, p: nat, l: nat)
  {
    1 <= l <= 32 && (p + l - 1) / 8 < |du.data|
  }

  /** Appends bytes `i .. j - 1` to an accumulator: `acc = (acc << 8) + byte`. */
  function Accumulate(data: seq<Byte>, i: nat, j: nat, acc: nat): nat
    requires i <= j <= |data|
    decreases j - i
  {
    if i == j then acc else Accumulate(data, i + 1, j, acc * 256 + data[i])
  }

  /** One accumulation step: appending byte `i` to the accumulator before a
      field of `m` bits is the same as letting the field start at that byte. */
  lemma AccumulateStep(data: seq<Byte>, i: nat, acc: nat, p: nat, m: nat)
    requires i < |data| && p == 8 * i && p + 8 + m <= 8 * |data|
    ensures Shl(acc * 256 + data[i], m) + FieldValue(data, p + 8, m)
              == Shl(acc, 8 + m) + FieldValue(data, p, 8 + m)
  {
    ShlIsMul(acc, 8);
    assert Pow2(8) == 256;
    ShlAdd(Shl(acc, 8), data[i], m);
    ShlShl(acc, 8, m);
    FieldValueSplit(data, p, 8, m);
    FieldValueByte(data, i);
  }

  lemma {:induction false} AccumulateField(data: seq<Byte>, i: nat, j: nat, acc: nat, p: nat, n: nat)
    requires i <= j <= |data| && p == 8 * i && n == 8 * (j - i)
    ensures Accumulate(data, i, j, acc) == Shl(acc, n) + FieldValue(data, p, n)
    decreases j - i
  {
    if i < j {
      AccumulateField(data, i + 1, j, acc * 256 + data[i], p + 8, n - 8);
      AccumulateStep(data, i, acc, p, n - 8);
    }
  }

  /** Accumulating bytes shifts the accumulator left by their number of
      bits and adds the field they hold. */
  lemma AccumulateValue(data: seq<Byte>, i: nat, j: nat, acc: nat)
    requires i <= j <= |data|
    ensures Accumulate(data, i, j, acc) == Shl(acc, 8 * (j - i)) + FieldValue(data, 8 * i, 8 * (j - i))
  {
    AccumulateField(data, i, j, acc, 8 * i, 8 * (j - i));
  }

  /** The first byte masked to its low `8 - f` bits followed by the bytes
      up to `lb` is the field from bit `p = 8 fb + f` to the end of `lb`,
      `8 - f + n` bits long. */
  lemma AccumulatedField(data: seq<Byte>, fb: nat, f: nat, lb: nat, p: nat, n: nat)
    requires fb <= lb < |data| && f < 8
    requires p == 8 * fb + f && n == 8 * (lb - fb)
    ensures Accumulate(data, fb + 1, lb + 1, And(data[fb], Pow2(8 - f) - 1)) == FieldValue(data, p, 8 - f + n)
  {
    var first := And(data[fb], Pow2(8 - f) - 1);
    AccumulateField(data, fb + 1, lb + 1, first, p + (8 - f), n);
    ByteLowBits(data, fb, f);
    FieldValueSplit(data, p, 8 - f, n);
  }

  /** Shifting a field right by its last `s` bits leaves the field without them. */
  lemma FieldValueDropLow(data: seq<Byte>, p: nat, l: nat, s: nat)
    requires p + l + s <= 8 * |data|
    ensures Shr(FieldValue(data, p, l + s), s) == FieldValue(data, p, l)
  {
    FieldValueSplit(data, p, l, s);
    FieldValueBound(data, p + l, s);
    ShrOfShlAdd(FieldValue(data, p, l), FieldValue(data, p + l, s), s);
  }

  /** The shift-and-mask computation of `get_bits` yields the field's value:
      the first byte keeps its low `8 - f` bits, the following bytes up to the
      last one are appended, and the `s` bits after the field are shifted
      out. */
  lemma ShiftMaskValue(data: seq<Byte>, p: nat, l: nat, fb: nat, f: nat, lb: nat, s: nat)
    requires fb <= lb < |data| && f < 8 && 1 <= l
    requires p == 8 * fb + f && p + l + s == 8 * lb + 8
    ensures Shr(Accumulate(data, fb + 1, lb + 1, And(data[fb], Pow2(8 - f) - 1)), s) == FieldValue(data, p, l)
  {
    AccumulatedField(data, fb, f, lb, p, 8 * (lb - fb));
    assert 8 - f + 8 * (lb - fb) == l + s;
    FieldValueDropLow(data, p, l, s);
  }

  /** The same for the byte positions `get_bits` derives from `p` and `l`. */
  lemma GetBitsValue(data: seq<Byte>, p: nat, l: nat)
    requires 1 <= l && p + l <= 8 * |data|
    ensures Shr(Accumulate(data, p / 8 + 1, (p + l - 1) / 8 + 1, And(data[p / 8], Pow2(8 - p % 8) - 1)),
                7 - (p + l - 1) % 8) == FieldValue(data, p, l)
  {
    var fb := p / 8;
    var lb := (p + l - 1) / 8;
    var f := p % 8;
    var s := 7 - (p + l - 1) % 8;
    assert p == 8 * fb + f;
    assert p + l + s == 8 * lb + 8;
    ShiftMaskValue(data, p, l, fb, f, lb, s);
  }

  /** A field accepted by `get_bits` lies inside the buffer, the
      shift-and-mask computation yields its value, and the value fits in 32
      bits. */
  lemma GetBitsSound(data: seq<Byte>, p: nat, l: nat)
    requires 1 <= l <= 32 && (p + l - 1) / 8 < |data|
    ensures p + l <= 8 * |data|
    ensures Shr(Accumulate(data, p / 8 + 1, (p + l - 1) / 8 + 1, And(data[p / 8], Pow2(8 - p % 8) - 1)),
                7 - (p + l - 1) % 8) == FieldValue(data, p, l)
    ensures FieldValue(data, p, l) < 0x1_0000_0000
  {
    assert p + l <= 8 * |data|;
    GetBitsValue(data, p, l);
    FieldValueBound(data, p, l);
    Pow2Monotonic(l, 32);
    Pow256IsPow2(4);
    assert Pow256(4) == 0x1_0000_0000;
  }

  /** `get_bits`: the value of the `l`-bit field starting at bit `p`. */
  function GetBits(du: DU, p: nat, l: nat): (r: Result<U32>)
    ensures r.Ok? <==> FieldAccepted(du, p, l)
    ensures r.Err? && !(1 <= l <= 32) ==> r.error == InvalidLength
    ensures r.Err? && 1 <= l <= 32 ==> r.error == OutOfBuffer
    ensures r.Ok? ==> p + l <= 8 * |du.data| && r.value == FieldValue(du.data, p, l)
  {
    if l == 0 || l > 32 then Err(InvalidLength)
    else if (p + l - 1) / 8 >= |du.data| then Err(OutOfBuffer)
    else
      GetBitsSound(du.data, p, l);
      Ok(Shr(Accumulate(du.data, p / 8 + 1, (p + l - 1) / 8 + 1, And(du.data[p / 8], Pow2(8 - p % 8) - 1)),
             7 - (p + l - 1) % 8))
  }

  /* ---------------------------------------------------------------------
     Writing a bit field.
     --------------------------------------------------------------------- */

  /** `set_bits` passes all its checks and writes. */
  predicate SetBitsAccepted(du: DU, p: nat, l: nat, v: U32)
  {
    FieldAccepted(du, p, l) && v < Pow2(l)
  }

  /** The filter `set_bits` applies to byte `x` of the field: a field inside
      one byte is cleared with `BitFilter[first][last]`; otherwise the first
      byte is cleared from the field's start, the inner bytes entirely, and
      the last byte up to the field's end. */
  function SpanFilter(p: nat, l: nat, x: nat): Byte
    requires 1 <= l
  {
    var fb := p / 8;
    var lb := (p + l - 1) / 8;
    if fb == lb then BitFilter[p % 8][(p + l - 1) % 8]
    else if x == fb then BitFilter[p % 8][7]
    else if x == lb then BitFilter[0][(p + l - 1) % 8]
    else 0
  }

  /** The filter of byte `x` clears exactly the field's bits in that byte. */
  lemma SpanFilterMeaning(p: nat, l: nat, x: nat, w: nat)
    requires 1 <= l && p / 8 <= x <= (p + l - 1) / 8 && w < 8
    ensures Bit(SpanFilter(p, l, x), w) <==> !(p <= 8 * x + 7 - w <= p + l - 1)
  {
    var fb := p / 8;
    var lb := (p + l - 1) / 8;
    assert 8 * fb + p % 8 == p;
    assert 8 * lb + (p + l - 1) % 8 == p + l - 1;
    if fb == lb {
      BitFilterMeaning(p % 8, (p + l - 1) % 8, w);
    } else if x == fb {
      BitFilterMeaning(p % 8, 7, w);
    } else if x == lb {
      BitFilterMeaning(0, (p + l - 1) % 8, w);
    } else {
      BitZero(w);
    }
  }

  /** The byte of the value that lands in byte `x`: the value shifted left by
      the `7 - (p + l - 1) % 8` bits after the field, then shifted right by
      8 for every byte between `x` and the field's last byte. */
  function AlignedByte(p: nat, l: nat, v: nat, x: nat): nat
    requires 1 <= l && x <= (p + l - 1) / 8
  {
    Shr(Shl(v, 7 - (p + l - 1) % 8), 8 * ((p + l - 1) / 8 - x)) % 256
  }

  /** Bit `w` of byte `j` from the end of `v` shifted left by `s`. */
  lemma ShiftedByteBit(v: nat, s: nat, j: nat, w: nat)
    requires w < 8
    ensures Bit(Shr(Shl(v, s), 8 * j) % 256, w) == (s <= 8 * j + w && Bit(v, 8 * j + w - s))
  {
    ByteBit(Shr(Shl(v, s), 8 * j), w);
    ShrBit(Shl(v, s), 8 * j, w);
    ShlBit(v, s, 8 * j + w);
  }

  /** The value's byte for `x` holds bit `p + l - 1 - g` of the value at every
      field bit `g` of byte `x`, and nothing elsewhere. */
  lemma AlignedByteBit(p: nat, l: nat, v: nat, x: nat, w: nat)
    requires 1 <= l && v < Pow2(l) && x <= (p + l - 1) / 8 && w < 8
    ensures Bit(AlignedByte(p, l, v, x), w) <==>
      (p <= 8 * x + 7 - w <= p + l - 1 && Bit(v, p + l - 1 - (8 * x + 7 - w)))
  {
    var lb := (p + l - 1) / 8;
    var s := 7 - (p + l - 1) % 8;
    assert 8 * lb + 7 - s == p + l - 1;
    ShiftedByteBit(v, s, lb - x, w);
    if s <= 8 * (lb - x) + w && 8 * (lb - x) + w - s >= l {
      BitHigh(v, l, 8 * (lb - x) + w - s);
    }
  }

  /** Filtering the old byte and adding the value's byte: the two have no
      bit in common, so the sum stays a byte and acts as a bitwise OR. */
  function MergedByte(data: seq<Byte>, p: nat, l: nat, v: nat, x: nat): nat
    requires 1 <= l && x < |data| && x <= (p + l - 1) / 8
  {
    And(data[x], SpanFilter(p, l, x)) + AlignedByte(p, l, v, x)
  }

  /** The filtered old byte and the value's byte have no bit in common. */
  lemma MergedByteDisjoint(data: seq<Byte>, p: nat, l: nat, v: nat, x: nat)
    requires 1 <= l && v < Pow2(l) && x < |data| && p / 8 <= x <= (p + l - 1) / 8
    ensures Disjoint(And(data[x], SpanFilter(p, l, x)), AlignedByte(p, l, v, x))
  {
    var kept := And(data[x], SpanFilter(p, l, x));
    var added := AlignedByte(p, l, v, x);
    forall u | 0 <= u
      ensures !(Bit(kept, u) && Bit(added, u))
    {
      if u < 8 {
        AndBit(data[x], SpanFilter(p, l, x), u);
        SpanFilterMeaning(p, l, x, u);
        AlignedByteBit(p, l, v, x, u);
      } else {
        assert Pow2(8) == 256;
        BitHigh(added, 8, u);
      }
    }
  }

  /** The merged byte is a byte. */
  lemma MergedByteBound(data: seq<Byte>, p: nat, l: nat, v: nat, x: nat)
    requires 1 <= l && v < Pow2(l) && x < |data| && p / 8 <= x <= (p + l - 1) / 8
    ensures MergedByte(data, p, l, v, x) < 256
  {
    MergedByteDisjoint(data, p, l, v, x);
    AndBound(data[x], SpanFilter(p, l, x));
    assert Pow2(8) == 256;
    DisjointAddBound(And(data[x], SpanFilter(p, l, x)), AlignedByte(p, l, v, x), 8);
  }

  /** Each bit of a byte of the field after `set_bits`: the value's bit
      inside the field, the old bit outside it. */
  lemma MergedByteBit(data: seq<Byte>, p: nat, l: nat, v: nat, x: nat, w: nat)
    requires 1 <= l && v < Pow2(l) && x < |data| && p / 8 <= x <= (p + l - 1) / 8 && w < 8
    ensures Bit(MergedByte(data, p, l, v, x), w) <==>
      if p <= 8 * x + 7 - w <= p + l - 1 then Bit(v, p + l - 1 - (8 * x + 7 - w))
      else Bit(data[x], w)
  {
    MergedByteDisjoint(data, p, l, v, x);
    DisjointAddBit(And(data[x], SpanFilter(p, l, x)), AlignedByte(p, l, v, x), w);
    AndBit(data[x], SpanFilter(p, l, x), w);
    SpanFilterMeaning(p, l, x, w);
    AlignedByteBit(p, l, v, x, w);
  }

  /** Byte `x` of the field after `set_bits`. */
  function NewByte(data: seq<Byte>, p: nat, l: nat, v: nat, x: nat): Byte
    requires 1 <= l && v < Pow2(l) && x < |data| && p / 8 <= x <= (p + l - 1) / 8
  {
    MergedByteBound(data, p, l, v, x);
    MergedByte(data, p, l, v, x)
  }

  /** `set_bits`: stores `v` in the `l`-bit field starting at bit `p`. The
      checks run in the order length, value, buffer range. The bytes outside
      the field's byte span are not touched; the bytes in it are filtered and
      then receive the value's bytes, which is what the clearing pass and the
      decomposition loop of the library do. */
  function SetBits(du: DU, p: nat, l: nat, v: U32): (r: Result<DU>)
    requires Writable(du) || !SetBitsAccepted(du, p, l, v)
    ensures r.Ok? <==> SetBitsAccepted(du, p, l, v)
    ensures r.Err? && !(1 <= l <= 32) ==> r.error == InvalidLength
    ensures r.Err? && 1 <= l <= 32 && v >= Pow2(l) ==> r.error == ValueOutOfRange
    ensures r.Err? && 1 <= l <= 32 && v < Pow2(l) ==> r.error == OutOfBuffer
    ensures r.Ok? ==> |r.value.data| == |du.data| && r.value.mode == du.mode
  {
    if l == 0 || l > 32 then Err(InvalidLength)
    else if v > Pow2(l) - 1 then Err(ValueOutOfRange)
    else if (p + l - 1) / 8 >= |du.data| then Err(OutOfBuffer)
    else
      var data := seq(|du.data|, i requires 0 <= i < |du.data| =>
        if p / 8 <= i <= (p + l - 1) / 8 then NewByte(du.data, p, l, v, i) else du.data[i]);
      Ok(DU(data, du.mode))
  }

  /** Every bit after `set_bits`: the value's bits inside the field, the old
      bits everywhere else. */
  lemma SetBitsBit(du: DU, p: nat, l: nat, v: U32, g: nat)
    requires Writable(du) && SetBitsAccepted(du, p, l, v) && g < 8 * |du.data|
    ensures BufBit(SetBits(du, p, l, v).value.data, g) ==
      if p <= g < p + l then Bit(v, p + l - 1 - g) else BufBit(du.data, g)
  {
    var r := SetBits(du, p, l, v).value.data;
    var x := g / 8;
    var w := 7 - g % 8;
    assert g == 8 * x + 7 - w;
    if p / 8 <= x <= (p + l - 1) / 8 {
      MergedByteBit(du.data, p, l, v, x, w);
      assert r[x] == MergedByte(du.data, p, l, v, x);
    } else {
      assert r[x] == du.data[x];
    }
  }

  /** After `set_bits` the field holds the value. */
  lemma SetBitsField(du: DU, p: nat, l: nat, v: U32)
    requires Writable(du) && SetBitsAccepted(du, p, l, v)
    ensures FieldValue(SetBits(du, p, l, v).value.data, p, l) == v
  {
    var r := SetBits(du, p, l, v).value.data;
    forall g | p <= g < p + l
      ensures BufBit(r, g) == Bit(v, p + l - 1 - g)
    {
      SetBitsBit(du, p, l, v, g);
    }
    FieldValueOfBits(r, p, l, v);
  }

  /** `set_bits` changes no bit outside the field. */
  lemma SetBitsFrame(du: DU, p: nat, l: nat, v: U32, g: nat)
    requires Writable(du) && SetBitsAccepted(du, p, l, v)
    requires g < 8 * |du.data| && !(p <= g < p + l)
    ensures BufBit(SetBits(du, p, l, v).value.data, g) == BufBit(du.data, g)
  {
    SetBitsBit(du, p, l, v, g);
  }

  /** Reading a field back after writing it gives the value written. */
  lemma SetBitsGetBits(du: DU, p: nat, l: nat, v: U32)
    requires Writable(du) && SetBitsAccepted(du, p, l, v)
    ensures GetBits(SetBits(du, p, l, v).value, p, l) == Ok(v)
  {
    SetBitsField(du, p, l, v);
  }

  /** Writing a field's own value into it leaves the buffer as it was. */
  lemma SetBitsOwnValue(du: DU, p: nat, l: nat, v: U32)
    requires Writable(du) && SetBitsAccepted(du, p, l, v)
    requires p + l <= 8 * |du.data| && v == FieldValue(du.data, p, l)
    ensures SetBits(du, p, l, v) == Ok(du)
  {
    var r := SetBits(du, p, l, v).value;
    forall g | 0 <= g < 8 * |du.data|
      ensures BufBit(r.data, g) == BufBit(du.data, g)
    {
      SetBitsBit(du, p, l, v, g);
      if p <= g < p + l {
        FieldValueBit(du.data, p, l, g - p);
      }
    }
    BufBitsDetermine(r.data, du.data);
  }

  /** Writing back the value just read changes nothing. */
  lemma GetBitsSetBits(du: DU, p: nat, l: nat)
    requires Writable(du) && GetBits(du, p, l).Ok?
    ensures SetBits(du, p, l, GetBits(du, p, l).value) == Ok(du)
  {
    var v := GetBits(du, p, l).value;
    FieldValueBound(du.data, p, l);
    SetBitsOwnValue(du, p, l, v);
  }

  /** Two fields that do not overlap are independent: writing one leaves the
      other's value unchanged. */
  lemma SetBitsKeepsOtherField(du: DU, p: nat, l: nat, v: U32, q: nat, m: nat)
    requires Writable(du) && SetBitsAccepted(du, p, l, v)
    requires q + m <= 8 * |du.data| && (q + m <= p || p + l <= q)
    ensures FieldValue(SetBits(du, p, l, v).value.data, q, m) == FieldValue(du.data, q, m)
  {
    var r := SetBits(du, p, l, v).value.data;
    forall g | q <= g < q + m
      ensures BufBit(r, g) == BufBit(du.data, g)
    {
      SetBitsFrame(du, p, l, v, g);
    }
    FieldValueFrame(r, du.data, q, m);
  }

  /** A byte-aligned field of 8, 16, 24 or 32 bits reads the same number as
      the unsigned integer accessor over the same bytes. */
  lemma BitsAgreeWithUnsigned(du: DU, pos: nat, len: nat)
    requires 1 <= len <= 4
    ensures GetBits(du, 8 * pos, 8 * len) == GetUnsigned(du, pos, len)
  {
    if pos + len <= |du.data| {
      FieldValueBE(du.data, pos, len);
    }
  }

  /* ---------------------------------------------------------------------
     Known answers from the library's unit tests, on a buffer that starts
     with 04 03 02 01 34 35 36 37.
     --------------------------------------------------------------------- */

  const Sample: DU := DU([0x04, 0x03, 0x02, 0x01, 0x34, 0x35, 0x36, 0x37], Owner)

  lemma GetBitsKnownAnswers()
    ensures GetBits(Sample, 4, 1) == Ok(0)
    ensures GetBits(Sample, 5, 3) == Ok(4)
    ensures GetBits(Sample, 12, 8) == Ok(48)
    ensures GetBits(Sample, 20, 16) == Ok(8211)
  {
    GetOneBit();
    GetThreeBits();
    GetEightBits();
    GetSixteenBits();
  }

  lemma GetOneBit()
    ensures GetBits(Sample, 4, 1) == Ok(0)
  {
    var d := Sample.data;
    assert d[0] == 4;
    assert Pow2(4) == 16;
    assert And(d[0], 15) == 4;
    assert Accumulate(d, 1, 1, 4) == 4 && Shr(4, 3) == 0;
    assert GetBits(Sample, 4, 1).value == Shr(Accumulate(d, 1, 1, And(d[0], Pow2(4) - 1)), 3);
  }

  lemma GetThreeBits()
    ensures GetBits(Sample, 5, 3) == Ok(4)
  {
    var d := Sample.data;
    assert d[0] == 4;
    assert Pow2(3) == 8;
    assert And(d[0], 7) == 4;
    assert Accumulate(d, 1, 1, 4) == 4 && Shr(4, 0) == 4;
    assert GetBits(Sample, 5, 3).value == Shr(Accumulate(d, 1, 1, And(d[0], Pow2(3) - 1)), 0);
  }

  lemma GetEightBits()
    ensures GetBits(Sample, 12, 8) == Ok(48)
  {
    var d := Sample.data;
    assert d[1] == 3 && d[2] == 2;
    assert Pow2(4) == 16;
    assert And(d[1], 15) == 3;
    assert Accumulate(d, 2, 3, 3) == Accumulate(d, 3, 3, 770) == 770;
    assert Shr(770, 4) == 48;
    assert GetBits(Sample, 12, 8).value == Shr(Accumulate(d, 2, 3, And(d[1], Pow2(4) - 1)), 4);
  }

  lemma GetSixteenBits()
    ensures GetBits(Sample, 20, 16) == Ok(8211)
  {
    var d := Sample.data;
    assert d[2] == 2 && d[3] == 1 && d[4] == 0x34;
    assert Pow2(4) == 16;
    assert And(d[2], 15) == 2;
    assert Accumulate(d, 3, 5, 2) == Accumulate(d, 4, 5, 0x201) == Accumulate(d, 5, 5, 0x2_0134) == 0x2_0134;
    assert Shr(0x2_0134, 4) == 8211;
    assert GetBits(Sample, 20, 16).value == Shr(Accumulate(d, 3, 5, And(d[2], Pow2(4) - 1)), 4);
  }
}
