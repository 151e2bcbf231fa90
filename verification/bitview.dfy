/** The bit-level view of a byte buffer that the data-unit engine uses: bits
    are numbered from 0 starting at the most significant bit of byte 0, so
    bit `g` lives in byte `g / 8` at position `g % 8` counted from that
    byte's most significant bit. A bit field of `n` bits starting at bit `p`
    denotes the number whose binary digits, most significant first, are the
    buffer's bits `p .. p + n - 1`. These definitions are the reference the
    engine's shift-and-mask code is proved against. */
module BitView {
  import opened Bytes

  /** Bit `g` of the buffer, counted from the most significant bit of byte 0. */
  predicate BufBit(buf: seq<Byte>, g: nat)
    requires g < 8 * |buf|
  {
    Bit(buf[g / 8], 7 - g % 8)
  }

  /** The number held by the `n` bits starting at bit `p`, most significant
      bit first. */
  function FieldValue(buf: seq<Byte>, p: nat, n: nat): nat
    requires p + n <= 8 * |buf|
  {
    if n == 0 then 0
    else 2 * FieldValue(buf, p, n - 1) + (if BufBit(buf, p + n - 1) then 1 else 0)
  }

  lemma {:induction false} FieldValueBound(buf: seq<Byte>, p: nat, n: nat)
    requires p + n <= 8 * |buf|
    ensures FieldValue(buf, p, n) < Pow2(n)
  {
    if n > 0 {
      FieldValueBound(buf, p, n - 1);
    }
  }

  /** Bit `n - 1 - i` of a field's value is the field's `i`-th buffer bit. */
  lemma {:induction false} FieldValueBit(buf: seq<Byte>, p: nat, n: nat, i: nat)
    requires p + n <= 8 * |buf| && i < n
    ensures Bit(FieldValue(buf, p, n), n - 1 - i) == BufBit(buf, p + i)
  {
    var x := FieldValue(buf, p, n);
    var y := FieldValue(buf, p, n - 1);
    assert x == 2 * y + (if BufBit(buf, p + n - 1) then 1 else 0);
    assert x / 2 == y;
    if i < n - 1 {
      FieldValueBit(buf, p, n - 1, i);
      assert Bit(x, n - 1 - i) == Bit(x / 2, n - 2 - i);
    }
  }

  /** Two buffers that agree on the bits of a field hold the same value there. */
  lemma {:induction false} FieldValueFrame(a: seq<Byte>, b: seq<Byte>, p: nat, n: nat)
    requires p + n <= 8 * |a| && p + n <= 8 * |b|
    requires forall g :: p <= g < p + n ==> BufBit(a, g) == BufBit(b, g)
    ensures FieldValue(a, p, n) == FieldValue(b, p, n)
  {
    if n > 0 {
      FieldValueFrame(a, b, p, n - 1);
      assert BufBit(a, p + n - 1) == BufBit(b, p + n - 1);
    }
  }

  /** A field of `a + b` bits is its first `a` bits followed by its last `b`. */
  lemma {:induction false} FieldValueSplit(buf: seq<Byte>, p: nat, a: nat, b: nat)
    requires p + a + b <= 8 * |buf|
    ensures FieldValue(buf, p, a + b) == Shl(FieldValue(buf, p, a), b) + FieldValue(buf, p + a, b)
    decreases b
  {
    if b > 0 {
      FieldValueSplit(buf, p, a, b - 1);
      assert p + (a + b) - 1 == p + a + b - 1;
    }
  }

  /** Bits with the same value below `n` determine equal fields. */
  lemma FieldValueOfBits(buf: seq<Byte>, p: nat, n: nat, v: nat)
    requires p + n <= 8 * |buf| && v < Pow2(n)
    requires forall g :: p <= g < p + n ==> BufBit(buf, g) == Bit(v, p + n - 1 - g)
    ensures FieldValue(buf, p, n) == v
  {
    var x := FieldValue(buf, p, n);
    FieldValueBound(buf, p, n);
    forall w | 0 <= w < n
      ensures Bit(x, w) == Bit(v, w)
    {
      var i := n - 1 - w;
      FieldValueBit(buf, p, n, i);
      assert BufBit(buf, p + i) == Bit(v, p + n - 1 - (p + i));
    }
    BitsDetermine(x, v, n);
  }

  /** The eight bits of byte `i` hold that byte. */
  lemma FieldValueByte(buf: seq<Byte>, i: nat)
    requires i < |buf|
    ensures FieldValue(buf, 8 * i, 8) == buf[i]
  {
    assert Pow2(8) == 256;
    forall g | 8 * i <= g < 8 * i + 8
      ensures BufBit(buf, g) == Bit(buf[i], 8 * i + 8 - 1 - g)
    {
      DivModUnique(g, 8, i, g - 8 * i);
    }
    FieldValueOfBits(buf, 8 * i, 8, buf[i]);
  }

  /** A field that ends where byte `i` begins, extended by that byte. */
  lemma FieldValueThenByte(buf: seq<Byte>, p: nat, a: nat, i: nat)
    requires i < |buf| && p + a == 8 * i
    ensures FieldValue(buf, p, a + 8) == Shl(FieldValue(buf, p, a), 8) + buf[i]
  {
    FieldValueSplit(buf, p, a, 8);
    FieldValueByte(buf, i);
  }

  lemma FieldValueTimesByte(buf: seq<Byte>, p: nat, a: nat, i: nat)
    requires i < |buf| && p + a == 8 * i
    ensures FieldValue(buf, p, a + 8) == FieldValue(buf, p, a) * 256 + buf[i]
  {
    FieldValueThenByte(buf, p, a, i);
    ShlIsMul(FieldValue(buf, p, a), 8);
    assert Pow2(8) == 256;
  }

  /** Extending a byte-aligned field by the next whole byte shifts it left by
      eight bits and appends that byte. */
  lemma FieldValueByteStep(buf: seq<Byte>, i: nat, j: nat)
    requires i + j < |buf|
    ensures FieldValue(buf, 8 * i, 8 * j + 8) == FieldValue(buf, 8 * i, 8 * j) * 256 + buf[i + j]
  {
    FieldValueTimesByte(buf, 8 * i, 8 * j, i + j);
  }

  lemma BESliceStep(buf: seq<Byte>, i: nat, j: nat)
    requires i + j < |buf|
    ensures BE(buf[i..i + j + 1]) == BE(buf[i..i + j]) * 256 + buf[i + j]
  {
    var s := buf[i..i + j + 1];
    assert s[..|s| - 1] == buf[i..i + j];
  }

  /** A byte-aligned field of `k` whole bytes holds their big-endian value. */
  lemma {:induction false} FieldValueBE(buf: seq<Byte>, i: nat, k: nat)
    requires i + k <= |buf|
    ensures FieldValue(buf, 8 * i, 8 * k) == BE(buf[i..i + k])
  {
    if k > 0 {
      var j := k - 1;
      FieldValueBE(buf, i, j);
      FieldValueByteStep(buf, i, j);
      BESliceStep(buf, i, j);
      assert 8 * k == 8 * j + 8;
    }
  }

  /** Bit `w` of byte `i` masked to its low `8 - f` bits, for `w` below
      `8 - f`, is buffer bit `g`. */
  lemma ByteLowBit(buf: seq<Byte>, i: nat, f: nat, g: nat, w: nat)
    requires i < |buf| && f < 8 && w < 8 - f && g == 8 * i + 7 - w
    ensures BufBit(buf, g) == Bit(And(buf[i], Pow2(8 - f) - 1), w)
  {
    DivModUnique(g, 8, i, 7 - w);
    AndBit(buf[i], Pow2(8 - f) - 1, w);
    LowMaskBit(8 - f, w);
  }

  /** Masking byte `i` with its low `8 - f` bits gives the field that
      starts `f` bits into that byte and runs to its end. */
  lemma ByteLowBits(buf: seq<Byte>, i: nat, f: nat)
    requires i < |buf| && f < 8
    ensures And(buf[i], Pow2(8 - f) - 1) == FieldValue(buf, 8 * i + f, 8 - f)
  {
    var m := And(buf[i], Pow2(8 - f) - 1);
    AndBoundRight(buf[i], Pow2(8 - f) - 1);
    forall g | 8 * i + f <= g < 8 * i + 8
      ensures BufBit(buf, g) == Bit(m, 8 * i + f + (8 - f) - 1 - g)
    {
      ByteLowBit(buf, i, f, g, 8 * i + 7 - g);
    }
    FieldValueOfBits(buf, 8 * i + f, 8 - f, m);
  }

  /** Buffers of the same size that agree on every bit are equal. */
  lemma BufBitsDetermine(a: seq<Byte>, b: seq<Byte>)
    requires |a| == |b|
    requires forall g :: 0 <= g < 8 * |a| ==> BufBit(a, g) == BufBit(b, g)
    ensures a == b
  {
    forall i | 0 <= i < |a|
      ensures a[i] == b[i]
    {
      forall w | 0 <= w < 8
        ensures Bit(a[i], w) == Bit(b[i], w)
      {
        var g := 8 * i + 7 - w;
        DivModUnique(g, 8, i, 7 - w);
        assert BufBit(a, g) == BufBit(b, g);
      }
      assert Pow2(8) == 256;
      BitsDetermine(a[i], b[i], 8);
    }
  }
}
