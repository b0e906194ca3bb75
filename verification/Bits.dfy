/** Bit arithmetic on unsigned machine words, and words seen as sequences of bits
    (most significant bit first). */
module Bits {

  lemma Associative<T>(a: seq<T>, b: seq<T>, c: seq<T>)
    ensures (a + b) + c == a + (b + c)
  {
  }

  /** x >> n */
  function Shr(x: nat, n: nat): nat
    decreases n + x
  {
    if n == 0 then x else Shr(x / 2, n - 1)
  }

  /** x << n, before the word wraps */
  function Shl(x: nat, n: nat): nat
    decreases n, x
  {
    if n == 0 then x else Shl(2 * x, n - 1)
  }

  /** x | y */
  function Or(x: nat, y: nat): nat
    decreases x + y
  {
    if x == 0 then y else 2 * Or(x / 2, y / 2) + (if x % 2 == 1 || y % 2 == 1 then 1 else 0)
  }

  /** x & y */
  function And(x: nat, y: nat): nat
    decreases x + y
  {
    if x == 0 then 0 else 2 * And(x / 2, y / 2) + (if x % 2 == 1 && y % 2 == 1 then 1 else 0)
  }

  function Pow2(n: nat): (p: nat)
    ensures p > 0
  {
    if n == 0 then 1 else 2 * Pow2(n - 1)
  }

  lemma Pow2Values()
    ensures Pow2(2) == 4 && Pow2(4) == 0x10 && Pow2(5) == 0x20 && Pow2(6) == 0x40
    ensures Pow2(10) == 0x400 && Pow2(12) == 0x1000
    ensures Pow2(16) == 0x10000 && Pow2(18) == 0x40000 && Pow2(32) == 0x1_0000_0000
  {
    assert Pow2(8) == 0x100;
    assert Pow2(12) == 0x1000;
    assert Pow2(16) == 0x10000;
    assert Pow2(20) == 0x10_0000;
    assert Pow2(24) == 0x100_0000;
    assert Pow2(28) == 0x1000_0000;
  }

  /** What an n-bit unsigned register keeps of x */
  function Wrap(x: nat, n: nat): nat
    decreases n + x
  {
    if n == 0 then 0 else 2 * Wrap(x / 2, n - 1) + x % 2
  }

  /** The n low bits of x, most significant first */
  function ToBits(x: nat, n: nat): (bits: seq<bool>)
    ensures |bits| == n
    decreases n + x
  {
    if n == 0 then [] else ToBits(x / 2, n - 1) + [x % 2 == 1]
  }

  function FromBits(bits: seq<bool>): nat {
    if bits == [] then 0
    else 2 * FromBits(bits[..|bits| - 1]) + (if bits[|bits| - 1] then 1 else 0)
  }

  function Zeros(n: nat): (bits: seq<bool>)
    ensures |bits| == n
  {
    seq(n, _ => false)
  }

  lemma {:induction false} FromToBits(x: nat, n: nat)
    requires x < Pow2(n)
    ensures FromBits(ToBits(x, n)) == x
    decreases n
  {
    if n > 0 {
      FromToBits(x / 2, n - 1);
      assert ToBits(x, n)[..n - 1] == ToBits(x / 2, n - 1);
    }
  }

  lemma {:induction false} FromBitsBound(bits: seq<bool>)
    ensures FromBits(bits) < Pow2(|bits|)
  {
    if bits != [] {
      FromBitsBound(bits[..|bits| - 1]);
    }
  }

  lemma {:induction false} ToFromBits(bits: seq<bool>)
    ensures ToBits(FromBits(bits), |bits|) == bits
    decreases |bits|
  {
    if bits != [] {
      ToFromBits(bits[..|bits| - 1]);
    }
  }

  /** Shifting right by m drops the m last bits. */
  lemma {:induction false} ToBitsShr(x: nat, n: nat, m: nat)
    ensures ToBits(x, n + m) == ToBits(Shr(x, m), n) + ToBits(x, m)
    decreases m
  {
    if m > 0 {
      ToBitsShr(x / 2, n, m - 1);
      assert ToBits(x, n + m) == ToBits(x / 2, n + (m - 1)) + [x % 2 == 1];
    }
  }

  /** Wrapping a register at k bits leaves its k low bits alone. */
  lemma {:induction false} ToBitsWrap(x: nat, n: nat, k: nat)
    requires n <= k
    ensures ToBits(Wrap(x, k), n) == ToBits(x, n)
    decreases n
  {
    if n > 0 {
      ToBitsWrap(x / 2, n - 1, k - 1);
    }
  }

  lemma {:induction false} ShlTwice(x: nat, m: nat)
    ensures Shl(2 * x, m) == 2 * Shl(x, m)
    decreases m
  {
    if m > 0 {
      ShlTwice(2 * x, m - 1);
    }
  }

  lemma {:induction false} OrAdds(x: nat, y: nat, m: nat)
    requires y < Pow2(m)
    ensures Or(Shl(x, m), y) == Shl(x, m) + y
    decreases m
  {
    if m == 0 {
      OrZero(x);
    } else {
      OrAdds(x, y / 2, m - 1);
      ShlTwice(x, m - 1);
    }
  }

  lemma {:induction false} ToBitsShl(x: nat, y: nat, n: nat, m: nat)
    requires y < Pow2(m)
    ensures ToBits(Shl(x, m) + y, n + m) == ToBits(x, n) + ToBits(y, m)
    decreases m
  {
    if m > 0 {
      ToBitsShl(x, y / 2, n, m - 1);
      ShlTwice(x, m - 1);
      var w := Shl(x, m) + y;
      assert w / 2 == Shl(x, m - 1) + y / 2 && w % 2 == y % 2;
      assert ToBits(w, n + m) == ToBits(w / 2, n + (m - 1)) + [w % 2 == 1];
    }
  }

  /** Or-ing m low bits into a word shifted left by m puts the two side by side. */
  lemma ToBitsShlOr(x: nat, y: nat, n: nat, m: nat)
    requires y < Pow2(m)
    ensures ToBits(Or(Shl(x, m), y), n + m) == ToBits(x, n) + ToBits(y, m)
  {
    OrAdds(x, y, m);
    ToBitsShl(x, y, n, m);
  }

  lemma {:induction false} ShlMultiplies(x: nat, n: nat)
    ensures Shl(x, n) == Pow2(n) * x
    decreases n
  {
    if n > 0 {
      ShlMultiplies(2 * x, n - 1);
      assert Pow2(n - 1) * (2 * x) == 2 * (Pow2(n - 1) * x) == 2 * Pow2(n - 1) * x;
    }
  }

  /** A word whose m low bits are clear lets the m low bits of the other word through. */
  lemma {:induction false} OrShifted(a: nat, x: nat, m: nat)
    ensures Or(Shl(a, m), x) == Shl(Or(a, Shr(x, m)), m) + Wrap(x, m)
    decreases m
  {
    if m > 0 {
      OrShifted(a, x / 2, m - 1);
      ShlTwice(a, m - 1);
      ShlTwice(Or(a, Shr(x, m)), m - 1);
      if Shl(a, m) == 0 {
        assert Shl(a, m - 1) == 0;
      }
    }
  }

  /** n ones stay ones. */
  lemma {:induction false} OrOnes(x: nat, n: nat)
    ensures Or(Pow2(n) - 1, x) == Pow2(n) * Shr(x, n) + (Pow2(n) - 1)
    decreases n
  {
    if n > 0 {
      OrOnes(x / 2, n - 1);
      OrOdd(Pow2(n - 1), x);
      DoubleProduct(Pow2(n - 1), Shr(x / 2, n - 1));
    }
  }

  lemma OrOdd(p: nat, x: nat)
    requires p > 0
    ensures Or(2 * p - 1, x) == 2 * Or(p - 1, x / 2) + 1
  {
    assert (2 * p - 1) / 2 == p - 1 && (2 * p - 1) % 2 == 1;
  }

  lemma DoubleProduct(p: nat, q: nat)
    ensures (2 * p) * q == 2 * (p * q)
  {
  }

  lemma {:induction false} OrZero(x: nat)
    ensures Or(x, 0) == x
    decreases x
  {
    if x > 0 {
      OrZero(x / 2);
    }
  }

  lemma {:induction false} ZeroBits(n: nat)
    ensures ToBits(0, n) == Zeros(n)
  {
    if n > 0 {
      ZeroBits(n - 1);
    }
  }

  lemma {:induction false} FromBitsWrap(x: nat, n: nat)
    ensures FromBits(ToBits(x, n)) == Wrap(x, n)
    decreases n
  {
    if n > 0 {
      FromBitsWrap(x / 2, n - 1);
      assert ToBits(x, n)[..n - 1] == ToBits(x / 2, n - 1);
    }
  }

  /** Masking with n ones keeps the n low bits. */
  lemma {:induction false} AndMask(x: nat, n: nat)
    ensures And(x, Pow2(n) - 1) == Wrap(x, n)
    decreases n
  {
    var p := Pow2(n);
    if n == 0 {
      AndZero(x);
    } else {
      var h := Pow2(n - 1);
      AndMask(x / 2, n - 1);
      assert (p - 1) / 2 == h - 1 && (p - 1) % 2 == 1;
      if x == 0 {
        ZeroWrap(n);
      }
    }
  }

  /** Shifting out n bits and keeping n bits divide a word by 2^n. */
  lemma {:induction false} ShrWrap(x: nat, n: nat)
    ensures x == Pow2(n) * Shr(x, n) + Wrap(x, n) && Wrap(x, n) < Pow2(n)
    decreases n
  {
    if n > 0 {
      ShrWrap(x / 2, n - 1);
      Halves(x, Pow2(n - 1), Shr(x / 2, n - 1), Wrap(x / 2, n - 1));
    }
  }

  lemma Halves(x: nat, p: nat, q: nat, r: nat)
    requires x / 2 == p * q + r && r < p
    ensures x == (2 * p) * q + (2 * r + x % 2) && 2 * r + x % 2 < 2 * p
  {
    DoubleProduct(p, q);
  }

  /** A 32-bit register holds a smaller number unchanged. */
  lemma Fits32(x: nat)
    requires x < 0x1_0000_0000
    ensures Wrap(x, 32) == x
  {
    Pow2Values();
    ShrWrap(x, 32);
    assert Shr(x, 32) == 0;
  }

  // Shifts and masks in use, as division and remainder

  lemma Low2(x: nat)
    ensures Shr(x, 2) == x / 0x4 && And(x, 0x3) == x % 0x4
  {
    Pow2Values();
    AndMask(x, 2);
    ShrWrap(x, 2);
  }

  lemma Low4(x: nat)
    ensures Shr(x, 4) == x / 0x10 && And(x, 0xF) == x % 0x10
  {
    Pow2Values();
    AndMask(x, 4);
    ShrWrap(x, 4);
  }

  lemma Low5(x: nat)
    ensures Shr(x, 5) == x / 0x20 && And(x, 0x1F) == x % 0x20
  {
    Pow2Values();
    AndMask(x, 5);
    ShrWrap(x, 5);
  }

  lemma Low6(x: nat)
    ensures Shr(x, 6) == x / 0x40 && And(x, 0x3F) == x % 0x40
  {
    Pow2Values();
    AndMask(x, 6);
    ShrWrap(x, 6);
  }

  lemma Low10(x: nat)
    ensures Shr(x, 10) == x / 0x400 && And(x, 0x3FF) == x % 0x400
  {
    Pow2Values();
    AndMask(x, 10);
    ShrWrap(x, 10);
  }

  lemma Low12(x: nat)
    ensures Shr(x, 12) == x / 0x1000 && And(x, 0xFFF) == x % 0x1000
  {
    Pow2Values();
    AndMask(x, 12);
    ShrWrap(x, 12);
  }

  lemma Low18(x: nat)
    ensures Shr(x, 18) == x / 0x40000 && And(x, 0x3FFFF) == x % 0x40000
  {
    Pow2Values();
    AndMask(x, 18);
    ShrWrap(x, 18);
  }

  lemma {:induction false} ZeroWrap(n: nat)
    ensures Wrap(0, n) == 0
  {
    if n > 0 {
      ZeroWrap(n - 1);
    }
  }

  lemma {:induction false} AndZero(x: nat)
    ensures And(x, 0) == 0
    decreases x
  {
    if x > 0 {
      AndZero(x / 2);
    }
  }
}
