/** Two places where the data-unit engine's code computes something other
    than what its design evidently intends. Each is modelled here exactly as
    written, next to an input that shows the difference; the rest of the
    model uses the intended behaviour (`BitFields.GetBits` and
    `ResizeIntended`).

    1. `get_bits` builds the first byte's filter as `(1_u8 << (8 - f)) - 1`
       where `f` is the field's offset inside its first byte. For a
       byte-aligned field `f = 0` and the `u8` shift is by 8: a release
       build reduces the amount modulo 8 and gets the filter 0 (a debug
       build panics). It also accumulates into a `u32`, so a field that
       starts late in its first byte and spans five bytes loses its top bits
       before the final shift.
    2. `resize` pushes `new_size` zero bytes when growing, instead of
       `new_size - old_size`. */
module DuFindings {
  import opened Bytes
  import opened Errors
  import opened BitView
  import opened DataUnit
  import opened BitFields

  /* ---------------------------------------------------------------------
     `get_bits` as written.
     --------------------------------------------------------------------- */

  /** The first byte's filter `(1_u8 << (8 - f)) - 1` in a release build,
      where a `u8` shift amount is taken modulo 8. */
  function U8Mask(f: nat): (m: Byte)
    requires f < 8
  {
    var k := (8 - f) % 8;
    Pow2Monotonic(k, 7);
    assert Pow2(7) == 128;
    Pow2(k) - 1
  }

  /** The accumulation loop on a `u32`: `(value << 8) + byte`, where the
      shift keeps only the low 24 bits of the old value. */
  function AccumulateU32(data: seq<Byte>, i: nat, j: nat, acc: U32): U32
    requires i <= j <= |data|
    decreases j - i
  {
    if i == j then acc else AccumulateU32(data, i + 1, j, (acc % 0x100_0000) * 256 + data[i])
  }

  lemma {:induction false} ShrAtMost(x: nat, a: nat)
    ensures Shr(x, a) <= x
    decreases a
  {
    if a > 0 {
      ShrAtMost(x / 2, a - 1);
    }
  }

  /** `get_bits` as the code computes it: the same checks as the intended
      reader, the release-build filter for the first byte and a `u32`
      accumulator. */
  function GetBitsAsWritten(du: DU, p: nat, l: nat): (r: Result<U32>)
    ensures r.Ok? <==> FieldAccepted(du, p, l)
    ensures r.Err? ==> r == GetBits(du, p, l)
  {
    if l == 0 || l > 32 then Err(InvalidLength)
    else if (p + l - 1) / 8 >= |du.data| then Err(OutOfBuffer)
    else
      var first := And(du.data[p / 8], U8Mask(p % 8));
      AndBoundRight(du.data[p / 8], U8Mask(p % 8));
      var acc := AccumulateU32(du.data, p / 8 + 1, (p + l - 1) / 8 + 1, first);
      ShrAtMost(acc, 7 - (p + l - 1) % 8);
      Ok(Shr(acc, 7 - (p + l - 1) % 8))
  }

  lemma {:induction false} AccumulateAtLeast(data: seq<Byte>, i: nat, j: nat, acc: nat)
    requires i <= j <= |data|
    ensures Accumulate(data, i, j, acc) >= acc
    decreases j - i
  {
    if i < j {
      AccumulateAtLeast(data, i + 1, j, acc * 256 + data[i]);
    }
  }

  /** The `u32` accumulator agrees with the unbounded one as long as the
      unbounded result fits in 32 bits. */
  lemma {:induction false} AccumulateU32Agrees(data: seq<Byte>, i: nat, j: nat, acc: U32)
    requires i <= j <= |data| && Accumulate(data, i, j, acc) < 0x1_0000_0000
    ensures AccumulateU32(data, i, j, acc) == Accumulate(data, i, j, acc)
    decreases j - i
  {
    if i < j {
      var next := acc * 256 + data[i];
      AccumulateAtLeast(data, i + 1, j, next);
      assert acc < 0x100_0000;
      AccumulateU32Agrees(data, i + 1, j, next);
    }
  }

  /** For a first offset other than 0 the filter is the intended one. */
  lemma U8MaskOffByte(f: nat)
    requires 0 < f < 8
    ensures U8Mask(f) == Pow2(8 - f) - 1
  {
    assert (8 - f) % 8 == 8 - f;
  }

  /** A field of at most 32 bits accumulates below `2^32`. */
  lemma AccumulateFits(data: seq<Byte>, fb: nat, f: nat, lb: nat, n: nat)
    requires fb <= lb < |data| && f < 8 && n == 8 * (lb - fb) && 8 - f + n <= 32
    ensures Accumulate(data, fb + 1, lb + 1, And(data[fb], Pow2(8 - f) - 1)) < 0x1_0000_0000
  {
    AccumulatedField(data, fb, f, lb, 8 * fb + f, n);
    FieldValueBound(data, 8 * fb + f, 8 - f + n);
    Pow2Monotonic(8 - f + n, 32);
    Pow256IsPow2(4);
    assert Pow256(4) == 0x1_0000_0000;
  }

  /** With a first offset `f` other than 0 and at most four bytes, the
      code's accumulator holds the intended one. */
  lemma AccumulatorAgrees(data: seq<Byte>, fb: nat, f: nat, lb: nat)
    requires fb <= lb < |data| && lb <= fb + 3 && 0 < f < 8
    ensures And(data[fb], U8Mask(f)) < 0x1_0000_0000
    ensures AccumulateU32(data, fb + 1, lb + 1, And(data[fb], U8Mask(f)))
              == Accumulate(data, fb + 1, lb + 1, And(data[fb], Pow2(8 - f) - 1))
  {
    U8MaskOffByte(f);
    AndBoundRight(data[fb], U8Mask(f));
    AccumulateFits(data, fb, f, lb, 8 * (lb - fb));
    AccumulateU32Agrees(data, fb + 1, lb + 1, And(data[fb], U8Mask(f)));
  }

  /** The code's result in terms of the first byte `fb`, the offset `f`
      in it, the last byte `lb` and the `s` bits after the field. */
  lemma GetBitsAsWrittenAt(du: DU, p: nat, l: nat, fb: nat, f: nat, lb: nat, s: nat)
    requires 1 <= l <= 32 && lb < |du.data| && f < 8 && s < 8
    requires p == 8 * fb + f && p + l - 1 == 8 * lb + 7 - s
    ensures fb <= lb && (p + l - 1) / 8 == lb && And(du.data[fb], U8Mask(f)) < 0x1_0000_0000
    ensures GetBitsAsWritten(du, p, l)
              == Ok(Shr(AccumulateU32(du.data, fb + 1, lb + 1, And(du.data[fb], U8Mask(f))), s))
  {
    DivModUnique(p, 8, fb, f);
    DivModUnique(p + l - 1, 8, lb, 7 - s);
    AndBoundRight(du.data[fb], U8Mask(f));
  }

  lemma AgreesAt(du: DU, p: nat, l: nat, fb: nat, f: nat, lb: nat, s: nat)
    requires 1 <= l <= 32 && lb < |du.data| && 0 < f < 8 && s < 8 && lb <= fb + 3
    requires p == 8 * fb + f && p + l - 1 == 8 * lb + 7 - s
    ensures GetBitsAsWritten(du, p, l) == GetBits(du, p, l)
  {
    GetBitsAsWrittenAt(du, p, l, fb, f, lb, s);
    AccumulatorAgrees(du.data, fb, f, lb);
    ShiftMaskValue(du.data, p, l, fb, f, lb, s);
    assert FieldAccepted(du, p, l);
  }

  /** Away from the two defects, the code reads the intended value: a field
      that does not start on a byte boundary and touches at most four bytes. */
  lemma GetBitsAsWrittenAgrees(du: DU, p: nat, l: nat)
    requires p % 8 != 0 && (p + l - 1) / 8 <= p / 8 + 3
    ensures GetBitsAsWritten(du, p, l) == GetBits(du, p, l)
  {
    if FieldAccepted(du, p, l) {
      AgreesAt(du, p, l, p / 8, p % 8, (p + l - 1) / 8, 7 - (p + l - 1) % 8);
    }
  }

  /** Adding a multiple of `2^32` to the accumulator changes the result
      only by a multiple of `2^32`. */
  lemma {:induction false} AccumulateCongruent(data: seq<Byte>, i: nat, j: nat, x: nat, c: nat)
    requires i <= j <= |data|
    ensures Accumulate(data, i, j, x + c * 0x1_0000_0000) % 0x1_0000_0000
              == Accumulate(data, i, j, x) % 0x1_0000_0000
    decreases j - i
  {
    if i == j {
      DivAddMultiple(c, 0x1_0000_0000, x);
    } else {
      var b := data[i];
      assert (x + c * 0x1_0000_0000) * 256 + b == (x * 256 + b) + (256 * c) * 0x1_0000_0000;
      AccumulateCongruent(data, i + 1, j, x * 256 + b, 256 * c);
    }
  }

  /** The `u32` accumulator is the unbounded one modulo `2^32`. */
  lemma {:induction false} AccumulateU32Mod(data: seq<Byte>, i: nat, j: nat, acc: U32)
    requires i <= j <= |data|
    ensures AccumulateU32(data, i, j, acc) == Accumulate(data, i, j, acc) % 0x1_0000_0000
    decreases j - i
  {
    if i < j {
      var b := data[i];
      var y := (acc % 0x100_0000) * 256 + b;
      assert acc == (acc / 0x100_0000) * 0x100_0000 + acc % 0x100_0000;
      DivModUnique(acc * 256 + b, 0x1_0000_0000, acc / 0x100_0000, y);
      AccumulateU32Mod(data, i + 1, j, y);
      AccumulateCongruent(data, i + 1, j, y, acc / 0x100_0000);
    }
  }

  lemma {:induction false} AndZeroRight(a: nat)
    ensures And(a, 0) == 0
    decreases a
  {
    if a > 0 {
      AndZeroRight(a / 2);
    }
  }

  /** Masking a number below `2^n` with `n` one bits keeps it. */
  lemma AndLowMask(a: nat, n: nat)
    requires a < Pow2(n)
    ensures And(a, Pow2(n) - 1) == a
  {
    var x := And(a, Pow2(n) - 1);
    AndBound(a, Pow2(n) - 1);
    forall w | 0 <= w < n
      ensures Bit(x, w) == Bit(a, w)
    {
      AndBit(a, Pow2(n) - 1, w);
      LowMaskBit(n, w);
    }
    BitsDetermine(x, a, n);
  }

  lemma {:induction false} ShrIsDiv(x: nat, a: nat)
    ensures Shr(x, a) == x / Pow2(a)
    decreases a
  {
    if a > 0 {
      ShrIsDiv(x / 2, a - 1);
      DivDiv(x, 2, Pow2(a - 1));
    }
  }

  /** From a zero accumulator, the `u32` loop over bytes `i .. j - 1`,
      at most three of them, holds those bytes' value. */
  lemma AlignedAccumulates(data: seq<Byte>, i: nat, j: nat, q: nat, n: nat)
    requires i <= j <= |data| && j <= i + 3 && q == 8 * i && n == 8 * (j - i)
    ensures AccumulateU32(data, i, j, 0) == FieldValue(data, q, n)
  {
    var v := FieldValue(data, q, n);
    assert Accumulate(data, i, j, 0) == v by {
      AccumulateField(data, i, j, 0, q, n);
      ShlIsMul(0, n);
    }
    assert v < 0x1_0000_0000 by {
      FieldValueBound(data, q, n);
      Pow2Monotonic(n, 24);
      assert Pow2(24) == 0x100_0000 by { Pow256IsPow2(3); }
    }
    AccumulateU32Mod(data, i, j, 0);
  }

  /** Over four bytes `i .. j - 1`, the `u32` loop keeps only those bytes'
      value, whatever the accumulator held before. */
  lemma WideAccumulates(data: seq<Byte>, i: nat, j: nat, a: U32, q: nat)
    requires i <= j <= |data| && j == i + 4 && q == 8 * i
    ensures AccumulateU32(data, i, j, a) == FieldValue(data, q, 32)
  {
    var v := FieldValue(data, q, 32);
    var x := Accumulate(data, i, j, a);
    assert x == a * 0x1_0000_0000 + v by {
      AccumulateField(data, i, j, a, q, 32);
      ShlIsMul(a, 32);
      assert Pow2(32) == 0x1_0000_0000 by { Pow256IsPow2(4); }
    }
    assert x % 0x1_0000_0000 == v by {
      FieldValueBound(data, q, 32);
      assert Pow2(32) == 0x1_0000_0000 by { Pow256IsPow2(4); }
      DivAddMultiple(a, 0x1_0000_0000, v);
    }
    AccumulateU32Mod(data, i, j, a);
  }

  /** The byte-aligned case in terms of the first byte `fb`, the last byte
      `lb` and the `s` bits after the field: the code reads the bytes after
      the first one, shifted right by `s`. */
  lemma AlignedReadsAt(du: DU, p: nat, l: nat, fb: nat, lb: nat, s: nat)
    requires 1 <= l <= 32 && lb < |du.data| && s < 8
    requires p == 8 * fb && p + l - 1 == 8 * lb + 7 - s
    ensures fb <= lb <= fb + 3
    ensures GetBitsAsWritten(du, p, l) == Ok(Shr(FieldValue(du.data, p + 8, 8 * (lb - fb)), s))
  {
    var acc := AccumulateU32(du.data, fb + 1, lb + 1, 0);
    assert GetBitsAsWritten(du, p, l) == Ok(Shr(acc, s)) by {
      GetBitsAsWrittenAt(du, p, l, fb, 0, lb, s);
      assert U8Mask(0) == 0;
      AndZeroRight(du.data[fb]);
    }
    AlignedAccumulates(du.data, fb + 1, lb + 1, p + 8, 8 * (lb - fb));
  }

  lemma AlignedLostAt(du: DU, p: nat, l: nat, fb: nat, lb: nat, s: nat)
    requires 1 <= l <= 32 && lb < |du.data| && s < 8
    requires p == 8 * fb && p + l - 1 == 8 * lb + 7 - s
    ensures l <= 8 ==> GetBitsAsWritten(du, p, l) == Ok(0)
    ensures l > 8 ==> GetBitsAsWritten(du, p, l) == Ok(FieldValue(du.data, p + 8, l - 8))
  {
    AlignedReadsAt(du, p, l, fb, lb, s);
    var n := 8 * (lb - fb);
    if l <= 8 {
      assert n == 0;
      ShrAtMost(0, s);
    } else {
      assert n == l - 8 + s;
      FieldValueDropLow(du.data, p + 8, l - 8, s);
    }
  }

  /** The five-byte case in terms of the first byte `fb`, the offset `f`
      in it and the `s` bits after the field. */
  lemma WideLostAt(du: DU, p: nat, l: nat, fb: nat, f: nat, s: nat)
    requires 1 <= l <= 32 && fb + 4 < |du.data| && 0 < f < 8 && s < 8
    requires p == 8 * fb + f && p + l - 1 == 8 * (fb + 4) + 7 - s
    ensures GetBitsAsWritten(du, p, l) == Ok(FieldValue(du.data, p + (8 - f), l - (8 - f)))
  {
    var q := 8 * fb + 8;
    var a := And(du.data[fb], U8Mask(f));
    assert a < 0x1_0000_0000 by { AndBoundRight(du.data[fb], U8Mask(f)); }
    var acc := AccumulateU32(du.data, fb + 1, fb + 5, a);
    assert GetBitsAsWritten(du, p, l) == Ok(Shr(acc, s)) by {
      GetBitsAsWrittenAt(du, p, l, fb, f, fb + 4, s);
    }
    assert acc == FieldValue(du.data, q, 32) by {
      WideAccumulates(du.data, fb + 1, fb + 5, a, q);
    }
    FieldValueDropLow(du.data, q, 32 - s, s);
  }

  /** Where the code departs from the intended reader, it loses exactly the
      field's bits in its first byte: a field starting on a byte boundary
      (the filter is 0) and a field spanning five bytes (the `u32`
      accumulator drops them) both read as the rest of the field. With
      `GetBitsAsWrittenAgrees` this accounts for every accepted field. */
  lemma FirstByteLost(du: DU, p: nat, l: nat)
    requires FieldAccepted(du, p, l) && (p % 8 == 0 || (p + l - 1) / 8 == p / 8 + 4)
    ensures p + l <= 8 * |du.data|
    ensures l <= 8 - p % 8 ==> GetBitsAsWritten(du, p, l) == Ok(0)
    ensures l > 8 - p % 8 ==>
      GetBitsAsWritten(du, p, l) == Ok(FieldValue(du.data, p + (8 - p % 8), l - (8 - p % 8)))
  {
    var fb, f, lb, s := p / 8, p % 8, (p + l - 1) / 8, 7 - (p + l - 1) % 8;
    if f == 0 {
      AlignedLostAt(du, p, l, fb, lb, s);
    } else {
      WideLostAt(du, p, l, fb, f, s);
    }
  }

  /** A byte-aligned field reads as 0 whatever the buffer holds: the byte
      0xFF read as an 8-bit field at bit 0. */
  lemma AlignedFieldReadsZero()
    ensures GetBitsAsWritten(DU([0xFF], Owner), 0, 8) == Ok(0)
    ensures GetBits(DU([0xFF], Owner), 0, 8) == Ok(0xFF)
  {
    var du := DU([0xFF], Owner);
    FirstByteLost(du, 0, 8);
    FieldValueByte(du.data, 0);
  }

  const Wide: seq<Byte> := [0x7F, 0xFF, 0xFF, 0xFF, 0xFF]

  /** Every bit from 1 to 32 of `Wide` is set. */
  lemma WideBit(g: nat)
    requires 1 <= g <= 32
    ensures BufBit(Wide, g)
  {
    if g < 8 {
      assert g / 8 == 0 && g % 8 == g;
      assert Pow2(7) - 1 == 0x7F;
      LowMaskBit(7, 7 - g);
    } else {
      assert Wide[g / 8] == 0xFF;
      assert Pow2(8) - 1 == 0xFF;
      LowMaskBit(8, 7 - g % 8);
    }
  }

  /** The 32 set bits from bit 1 to bit 32 read as `0xFFFFFFFF`. */
  lemma WideFieldValue()
    ensures FieldValue(Wide, 1, 32) == 0xFFFF_FFFF
  {
    Pow256IsPow2(4);
    assert Pow256(4) == 0x1_0000_0000;
    forall g | 1 <= g < 33
      ensures BufBit(Wide, g) == Bit(0xFFFF_FFFF, 1 + 32 - 1 - g)
    {
      WideBit(g);
      LowMaskBit(32, 32 - g);
    }
    FieldValueOfBits(Wide, 1, 32, 0xFFFF_FFFF);
  }

  lemma U32Step(data: seq<Byte>, i: nat, j: nat, acc: U32, next: U32)
    requires i < j <= |data| && next == (acc % 0x100_0000) * 256 + data[i]
    ensures AccumulateU32(data, i, j, acc) == AccumulateU32(data, i + 1, j, next)
  {
  }

  lemma WideFirst()
    ensures And(Wide[0], U8Mask(1)) == 127
  {
    assert Pow2(7) == 128;
    assert U8Mask(1) == 127;
    AndLowMask(0x7F, 7);
  }

  lemma WideAccumulatorLow()
    ensures AccumulateU32(Wide, 3, 5, 0x7F_FFFF) == 0xFFFF_FFFF
  {
    assert Wide[3] == 0xFF && Wide[4] == 0xFF;
    U32Step(Wide, 3, 5, 0x7F_FFFF, 0x7FFF_FFFF);
    U32Step(Wide, 4, 5, 0x7FFF_FFFF, 0xFFFF_FFFF);
  }

  lemma WideAccumulator()
    ensures AccumulateU32(Wide, 1, 5, 127) == 0xFFFF_FFFF
  {
    assert Wide[1] == 0xFF && Wide[2] == 0xFF;
    U32Step(Wide, 1, 5, 127, 0x7FFF);
    U32Step(Wide, 2, 5, 0x7FFF, 0x7F_FFFF);
    WideAccumulatorLow();
  }

  /** A 32-bit field starting at bit 1 loses its top seven bits in the
      `u32` accumulator: 32 set bits read as `0x1FFFFFF` ... */
  lemma WideFieldTruncated()
    ensures GetBitsAsWritten(DU(Wide, Owner), 1, 32) == Ok(0x1FF_FFFF)
  {
    GetBitsAsWrittenAt(DU(Wide, Owner), 1, 32, 0, 1, 4, 7);
    WideFirst();
    WideAccumulator();
    ShrIsDiv(0xFFFF_FFFF, 7);
    assert Pow2(7) == 128;
  }

  /** ... where the intended reader gives `0xFFFFFFFF`. */
  lemma WideFieldIntended()
    ensures GetBits(DU(Wide, Owner), 1, 32) == Ok(0xFFFF_FFFF)
  {
    WideFieldValue();
  }

  /* ---------------------------------------------------------------------
     `resize` as intended.
     --------------------------------------------------------------------- */

  /** Resizing to `n` bytes: the first bytes are kept and new bytes are
      zero, and the buffer ends up exactly `n` bytes long. */
  function ResizeIntended(du: DU, n: nat): (r: DU)
    requires Resizable(du)
    ensures r.mode == Owner && |r.data| == n
    ensures forall i :: 0 <= i < n ==> r.data[i] == if i < |du.data| then du.data[i] else 0
  {
    if |du.data| < n then DU(du.data + Zeros(n - |du.data|), du.mode)
    else DU(du.data[..n], du.mode)
  }

  /** The code does what is intended when shrinking, keeping the size, or
      growing an empty buffer. */
  lemma ResizeAgrees(du: DU, n: nat)
    requires Resizable(du) && (n <= |du.data| || |du.data| == 0)
    ensures Resize(du, n) == ResizeIntended(du, n)
  {
    if |du.data| < n {
      assert n - |du.data| == n;
    }
  }

  /** Growing 24 bytes to 32 gives 56 bytes. */
  lemma ResizeOvershoots()
    ensures |Resize(NewAlloc(24), 32).data| == 56
    ensures |ResizeIntended(NewAlloc(24), 32).data| == 32
  {
    ResizeContents(NewAlloc(24), 32);
  }
}
