/** Fixed-width unsigned integers, big-endian byte sequences and single bits,
    as the data-unit engine and the time codec use them. Everything here is
    plain integer arithmetic: a byte is an integer in 0..255, bit `w` of a
    number is its coefficient of 2^w, and the bitwise AND of two numbers is
    defined bit by bit. */
module Bytes {

  type Byte = x: int | 0 <= x < 0x100
  type U16 = x: int | 0 <= x < 0x1_0000
  type U32 = x: int | 0 <= x < 0x1_0000_0000
  type U64 = x: int | 0 <= x < 0x1_0000_0000_0000_0000

  function Pow2(n: nat): (r: nat)
    ensures r >= 1
  {
    if n == 0 then 1 else 2 * Pow2(n - 1)
  }

  function Pow256(n: nat): (r: nat)
    ensures r >= 1
  {
    if n == 0 then 1 else 256 * Pow256(n - 1)
  }

  /* ---------------------------------------------------------------------
     Division and modulus facts.
     --------------------------------------------------------------------- */

  /** `(a + b) * c == a * c + b * c`, stated once so that callers need not
      ask the solver for it in a larger context. */
  lemma Distribute(a: int, b: int, c: int)
    ensures (a + b) * c == a * c + b * c
  {
  }

  lemma MulAssoc(a: int, b: int, c: int)
    ensures a * (b * c) == (a * b) * c
  {
  }

  lemma MulMono(a: int, b: int, c: int)
    requires 0 <= a <= b && 0 <= c
    ensures a * c <= b * c
  {
  }

  /** Quotient and remainder are unique. */
  lemma DivModUnique(x: int, d: int, q: int, r: int)
    requires d > 0 && 0 <= r < d && x == q * d + r
    ensures x / d == q && x % d == r
  {
    var q' := x / d;
    var r' := x % d;
    assert x == q' * d + r';
    Distribute(q, -q', d);
    if q' > q {
      MulMono(1, q' - q, d);
    } else if q' < q {
      MulMono(1, q - q', d);
    }
  }

  /** Splitting a quotient by `a * b` into a quotient by `a` and one by `b`:
      `x == (x / a / b) * (a * b) + (x / a % b) * a + x % a`. */
  lemma DivModNested(x: nat, a: nat, b: nat)
    requires a > 0 && b > 0
    ensures x / (a * b) == x / a / b
    ensures x % (a * b) == (x / a % b) * a + x % a
  {
    var q1 := x / a;
    var r1 := x % a;
    var q2 := q1 / b;
    var r2 := q1 % b;
    assert x == q1 * a + r1;
    assert q1 == q2 * b + r2;
    Distribute(q2 * b, r2, a);
    MulAssoc(q2, b, a);
    assert b * a == a * b;
    MulMono(r2, b - 1, a);
    Distribute(b, -1, a);
    DivModUnique(x, a * b, q2, r2 * a + r1);
  }

  lemma DivDiv(x: nat, a: nat, b: nat)
    requires a > 0 && b > 0
    ensures x / (a * b) == x / a / b
  {
    DivModNested(x, a, b);
  }

  /** (a * d + r) / d == a + r / d */
  lemma DivAddMultiple(a: nat, d: nat, r: nat)
    requires d > 0
    ensures (a * d + r) / d == a + r / d
    ensures (a * d + r) % d == r % d
  {
    assert r == (r / d) * d + r % d;
    Distribute(a, r / d, d);
    DivModUnique(a * d + r, d, a + r / d, r % d);
  }

  /** (v / d % m) * d + v % d == v % (d * m) */
  lemma ModMulSplit(v: nat, d: nat, m: nat)
    requires d > 0 && m > 0
    ensures (v / d % m) * d + v % d == v % (d * m)
  {
    DivModNested(v, d, m);
  }

  /* ---------------------------------------------------------------------
     Powers of two.
     --------------------------------------------------------------------- */

  lemma {:induction false} Pow2Add(a: nat, b: nat)
    ensures Pow2(a + b) == Pow2(a) * Pow2(b)
    decreases a
  {
    if a > 0 {
      Pow2Add(a - 1, b);
      assert Pow2(a + b) == 2 * Pow2(a - 1 + b);
    }
  }

  lemma {:induction false} Pow2Monotonic(a: nat, b: nat)
    requires a <= b
    ensures Pow2(a) <= Pow2(b)
    decreases b
  {
    if a < b {
      Pow2Monotonic(a, b - 1);
    }
  }

  lemma {:induction false} Pow256IsPow2(n: nat)
    ensures Pow256(n) == Pow2(8 * n)
  {
    if n > 0 {
      Pow256IsPow2(n - 1);
      Pow2Add(8, 8 * (n - 1));
      assert Pow2(8) == 256;
    }
  }

  lemma Pow256Monotonic(a: nat, b: nat)
    requires a <= b
    ensures Pow256(a) <= Pow256(b)
  {
    Pow256IsPow2(a);
    Pow256IsPow2(b);
    Pow2Monotonic(8 * a, 8 * b);
  }

  /* ---------------------------------------------------------------------
     Big-endian byte sequences.
     --------------------------------------------------------------------- */

  /** The unsigned number a byte sequence holds, most significant byte first:
      the accumulation `value = (value << 8) + byte` over the sequence. */
  function BE(s: seq<Byte>): nat
  {
    if |s| == 0 then 0 else BE(s[..|s| - 1]) * 256 + s[|s| - 1]
  }

  /** The `n` low-order bytes of `v`, most significant first: the
      decomposition `byte = v & 0xff; v >>= 8` written from the last byte
      backwards. */
  function ToBE(v: nat, n: nat): (r: seq<Byte>)
    ensures |r| == n
  {
    if n == 0 then [] else ToBE(v / 256, n - 1) + [v % 256]
  }

  lemma {:induction false} BEBound(s: seq<Byte>)
    ensures BE(s) < Pow256(|s|)
  {
    if |s| > 0 {
      BEBound(s[..|s| - 1]);
    }
  }

  /** Decoding an encoding gives the value back, truncated to the width. */
  lemma {:induction false} BEOfToBE(v: nat, n: nat)
    ensures BE(ToBE(v, n)) == v % Pow256(n)
  {
    if n > 0 {
      var s := ToBE(v, n);
      assert s[..n - 1] == ToBE(v / 256, n - 1);
      BEOfToBE(v / 256, n - 1);
      ModMulSplit(v, 256, Pow256(n - 1));
    }
  }

  lemma BEOfToBEExact(v: nat, n: nat)
    requires v < Pow256(n)
    ensures BE(ToBE(v, n)) == v
  {
    BEOfToBE(v, n);
  }

  /** Encoding a decoded sequence gives the sequence back. */
  lemma {:induction false} ToBEOfBE(s: seq<Byte>)
    ensures ToBE(BE(s), |s|) == s
  {
    if |s| > 0 {
      var pre := s[..|s| - 1];
      ToBEOfBE(pre);
      DivAddMultiple(BE(pre), 256, s[|s| - 1]);
      assert s == pre + [s[|s| - 1]];
    }
  }

  lemma {:induction false} BEAppend(a: seq<Byte>, b: seq<Byte>)
    ensures BE(a + b) == BE(a) * Pow256(|b|) + BE(b)
    decreases |b|
  {
    if |b| > 0 {
      var b' := b[..|b| - 1];
      assert (a + b)[..|a + b| - 1] == a + b';
      BEAppend(a, b');
      var x, q := BE(a), Pow256(|b'|);
      assert Pow256(|b|) == 256 * q;
      MulAssoc(x, q, 256);
      assert BE(a + b) == (x * q + BE(b')) * 256 + b[|b| - 1];
    } else {
      assert a + b == a;
    }
  }

  /* ---------------------------------------------------------------------
     Single bits.
     --------------------------------------------------------------------- */

  /** Bit `w` of `x`, counted from the least significant bit: the parity of
      `x` halved `w` times. */
  predicate Bit(x: nat, w: nat)
    decreases w
  {
    if w == 0 then x % 2 == 1 else Bit(x / 2, w - 1)
  }

  lemma {:induction false} BitZero(w: nat)
    ensures !Bit(0, w)
  {
    if w > 0 {
      BitZero(w - 1);
    }
  }

  /** `x >> a`: `x` halved `a` times. */
  function Shr(x: nat, a: nat): nat
    decreases a
  {
    if a == 0 then x else Shr(x / 2, a - 1)
  }

  /** `x << a`: `x` doubled `a` times, without any width limit. */
  function Shl(x: nat, a: nat): nat
    decreases a
  {
    if a == 0 then x else 2 * Shl(x, a - 1)
  }

  /** Shifting right by `a` moves bit `a + w` to position `w`. */
  lemma {:induction false} ShrBit(x: nat, a: nat, w: nat)
    ensures Bit(Shr(x, a), w) == Bit(x, a + w)
    decreases a
  {
    if a > 0 {
      ShrBit(x / 2, a - 1, w);
      assert Bit(x, a + w) == Bit(x / 2, a - 1 + w);
    }
  }

  /** Shifting left by `s` moves bit `t - s` to position `t` and clears the
      `s` low bits. */
  lemma {:induction false} ShlBit(v: nat, s: nat, t: nat)
    ensures Bit(Shl(v, s), t) == (s <= t && Bit(v, t - s))
    decreases s
  {
    if s > 0 {
      var y := Shl(v, s - 1);
      if t > 0 {
        assert (2 * y) / 2 == y;
        ShlBit(v, s - 1, t - 1);
      }
    }
  }

  lemma {:induction false} ShlIsMul(x: nat, a: nat)
    ensures Shl(x, a) == x * Pow2(a)
    decreases a
  {
    if a > 0 {
      ShlIsMul(x, a - 1);
      MulAssoc(x, 2, Pow2(a - 1));
    }
  }

  lemma {:induction false} ShrShr(x: nat, a: nat, b: nat)
    ensures Shr(Shr(x, a), b) == Shr(x, a + b)
    decreases a
  {
    if a > 0 {
      ShrShr(x / 2, a - 1, b);
    }
  }

  lemma {:induction false} ShlAdd(x: nat, y: nat, a: nat)
    ensures Shl(x + y, a) == Shl(x, a) + Shl(y, a)
    decreases a
  {
    if a > 0 {
      ShlAdd(x, y, a - 1);
    }
  }

  lemma {:induction false} ShlShl(x: nat, a: nat, b: nat)
    ensures Shl(Shl(x, a), b) == Shl(x, a + b)
    decreases b
  {
    if b > 0 {
      ShlShl(x, a, b - 1);
    }
  }

  /** Shifting out `s` low bits that hold less than 2^s leaves the high part. */
  lemma {:induction false} ShrOfShlAdd(hi: nat, lo: nat, s: nat)
    requires lo < Pow2(s)
    ensures Shr(Shl(hi, s) + lo, s) == hi
    decreases s
  {
    if s > 0 {
      assert (Shl(hi, s) + lo) / 2 == Shl(hi, s - 1) + lo / 2;
      ShrOfShlAdd(hi, lo / 2, s - 1);
    }
  }

  /** Keeping the `n` low bits keeps every bit below `n`. */
  lemma {:induction false} BitMod(x: nat, n: nat, w: nat)
    requires w < n
    ensures Bit(x % Pow2(n), w) == Bit(x, w)
    decreases w
  {
    ModMulSplit(x, 2, Pow2(n - 1));
    var y := x % Pow2(n);
    assert y == (x / 2 % Pow2(n - 1)) * 2 + x % 2;
    if w > 0 {
      assert y / 2 == x / 2 % Pow2(n - 1);
      BitMod(x / 2, n - 1, w - 1);
    }
  }

  /** The low eight bits of a number are its last byte. */
  lemma ByteBit(x: nat, w: nat)
    requires w < 8
    ensures Bit(x % 256, w) == Bit(x, w)
  {
    assert Pow2(8) == 256;
    BitMod(x, 8, w);
  }

  /** A number below 2^n has no bit at or above `n`. */
  lemma {:induction false} BitHigh(x: nat, n: nat, w: nat)
    requires x < Pow2(n) && n <= w
    ensures !Bit(x, w)
    decreases n
  {
    if n == 0 {
      BitZero(w);
    } else {
      BitHigh(x / 2, n - 1, w - 1);
    }
  }

  /** 2^m - 1 has exactly the bits below `m`. */
  lemma {:induction false} LowMaskBit(m: nat, w: nat)
    ensures Bit(Pow2(m) - 1, w) <==> w < m
    decreases m
  {
    if m == 0 {
      BitZero(w);
    } else if w > 0 {
      assert (Pow2(m) - 1) / 2 == Pow2(m - 1) - 1;
      LowMaskBit(m - 1, w - 1);
    }
  }

  /** Numbers below 2^n with the same low `n` bits are equal. */
  lemma {:induction false} BitsDetermine(x: nat, y: nat, n: nat)
    requires x < Pow2(n) && y < Pow2(n)
    requires forall w :: 0 <= w < n ==> Bit(x, w) == Bit(y, w)
    ensures x == y
  {
    if n > 0 {
      assert Bit(x, 0) == Bit(y, 0);
      forall w | 0 <= w < n - 1
        ensures Bit(x / 2, w) == Bit(y / 2, w)
      {
        assert Bit(x, w + 1) == Bit(y, w + 1);
      }
      BitsDetermine(x / 2, y / 2, n - 1);
    }
  }

  /** Bitwise AND of two non-negative numbers. */
  function And(a: nat, b: nat): (r: nat)
    decreases a
  {
    if a == 0 then 0 else 2 * And(a / 2, b / 2) + (a % 2) * (b % 2)
  }

  lemma {:induction false} AndBit(a: nat, b: nat, w: nat)
    ensures Bit(And(a, b), w) == (Bit(a, w) && Bit(b, w))
    decreases w
  {
    if a == 0 {
      BitZero(w);
    } else if w == 0 {
      assert And(a, b) % 2 == (a % 2) * (b % 2);
    } else {
      assert And(a, b) / 2 == And(a / 2, b / 2);
      AndBit(a / 2, b / 2, w - 1);
    }
  }

  lemma {:induction false} AndBound(a: nat, b: nat)
    ensures And(a, b) <= a
    decreases a
  {
    if a > 0 {
      AndBound(a / 2, b / 2);
    }
  }

  lemma {:induction false} AndBoundRight(a: nat, b: nat)
    ensures And(a, b) <= b
    decreases a
  {
    if a > 0 {
      AndBoundRight(a / 2, b / 2);
    }
  }

  /** `a` and `b` have no bit in common. */
  ghost predicate Disjoint(a: nat, b: nat)
  {
    forall u :: 0 <= u ==> !(Bit(a, u) && Bit(b, u))
  }

  /** Halving keeps two numbers free of common bits. */
  lemma DisjointHalves(a: nat, b: nat)
    requires Disjoint(a, b)
    ensures Disjoint(a / 2, b / 2)
    ensures (a + b) / 2 == a / 2 + b / 2
  {
    assert !(Bit(a, 0) && Bit(b, 0));
    forall u | 0 <= u
      ensures !(Bit(a / 2, u) && Bit(b / 2, u))
    {
      assert !(Bit(a, u + 1) && Bit(b, u + 1));
    }
  }

  /** Adding numbers without a common bit sets exactly the bits of either. */
  lemma {:induction false} DisjointAddBit(a: nat, b: nat, w: nat)
    requires Disjoint(a, b)
    ensures Bit(a + b, w) == (Bit(a, w) || Bit(b, w))
    decreases w
  {
    assert !(Bit(a, 0) && Bit(b, 0));
    if w > 0 {
      DisjointHalves(a, b);
      DisjointAddBit(a / 2, b / 2, w - 1);
    }
  }

  /** Adding numbers below 2^n without a common bit stays below 2^n. */
  lemma {:induction false} DisjointAddBound(a: nat, b: nat, n: nat)
    requires a < Pow2(n) && b < Pow2(n) && Disjoint(a, b)
    ensures a + b < Pow2(n)
    decreases n
  {
    if n > 0 {
      assert !(Bit(a, 0) && Bit(b, 0));
      DisjointHalves(a, b);
      DisjointAddBound(a / 2, b / 2, n - 1);
    }
  }
}
