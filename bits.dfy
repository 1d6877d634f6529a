/** Fixed-width unsigned integers and the bit operations the packed encodings use.
    Values are unbounded naturals; the 64-bit width of the source's `key_type`,
    `node_type` and `size_type` is the subset type `u64`, and every shift that can
    lose high bits is written with an explicit `% TWO_64`. */
module Bits {

  const TWO_64: nat := 0x1_0000_0000_0000_0000

  type u64 = x: nat | x < TWO_64
  type byte = x: nat | x < 256

  function Pow2(k: nat): (r: nat)
    ensures r >= 1
  {
    if k == 0 then 1 else 2 * Pow2(k - 1)
  }

  /** Bitwise OR of two naturals, one bit at a time from the least significant end. */
  function Or(a: nat, b: nat): nat
    decreases a + b
  {
    if a == 0 && b == 0 then 0
    else 2 * Or(a / 2, b / 2) + (if a % 2 == 1 || b % 2 == 1 then 1 else 0)
  }

  /** `a << k`, one doubling at a time. */
  function Shl(a: nat, k: nat): nat {
    if k == 0 then a else 2 * Shl(a, k - 1)
  }

  /** `a >> k`, one halving at a time. */
  function Shr(a: nat, k: nat): nat {
    if k == 0 then a else Shr(a / 2, k - 1)
  }

  /** `a & (2^k - 1)`, one bit at a time. */
  function Low(a: nat, k: nat): nat {
    if k == 0 then 0 else 2 * Low(a / 2, k - 1) + a % 2
  }

  /** Bit `k` of `a` is set. */
  predicate Bit(a: nat, k: nat) {
    Shr(a, k) % 2 == 1
  }

  // ---------------------------------------------------------------------------
  // Arithmetic on powers of two

  lemma Pow2Add(a: nat, b: nat)
    ensures Pow2(a + b) == Pow2(a) * Pow2(b)
  {
    if a > 0 {
      Pow2Add(a - 1, b);
    }
  }

  lemma Pow2Mono(a: nat, b: nat)
    requires a <= b
    ensures Pow2(a) <= Pow2(b)
  {
    if a < b {
      Pow2Mono(a, b - 1);
    }
  }

  lemma Pow2Values()
    ensures Pow2(1) == 2 && Pow2(2) == 4 && Pow2(3) == 8
    ensures Pow2(8) == 256 && Pow2(16) == 65536
    ensures Pow2(32) == 0x1_0000_0000 && Pow2(48) == 0x1_0000_0000_0000
    ensures Pow2(64) == TWO_64
  {
    assert Pow2(4) == 16;
    Pow2Add(4, 4);
    Pow2Add(8, 8);
    Pow2Add(16, 16);
    Pow2Add(32, 16);
    Pow2Add(32, 32);
  }

  lemma Pow2Below64(k: nat)
    requires k < 64
    ensures Pow2(k) < TWO_64 && 2 * Pow2(k) <= TWO_64
  {
    Pow2Mono(k + 1, 64);
    Pow2Values();
  }

  lemma MulMono(d: nat, x: nat, y: nat)
    requires x <= y
    ensures d * x <= d * y
  {
  }

  lemma MulCancel(d: nat, x: nat, y: nat)
    requires d > 0
    ensures d * x < d * y ==> x < y
  {
    if x >= y {
      MulMono(d, y, x);
    }
  }

  /** Euclidean division is determined by any quotient/remainder pair. */
  lemma DivModUnique(n: nat, d: nat, q: nat, r: nat)
    requires d > 0 && r < d && n == d * q + r
    ensures n / d == q && n % d == r
  {
    var q', r' := n / d, n % d;
    assert n == d * q' + r';
    assert d * q < d * (q' + 1) && d * q' < d * (q + 1);
    MulCancel(d, q, q' + 1);
    MulCancel(d, q', q + 1);
  }

  lemma Distrib(a: nat, b: nat, q: nat, r: nat, s: nat)
    ensures a * (b * q + r) + s == (a * b) * q + (a * r + s)
  {
  }

  lemma MulLess(a: nat, r: nat, b: nat)
    requires r < b
    ensures a * r <= a * b - a
  {
    assert a * b - a == a * (b - 1);
  }

  lemma DivDiv(n: nat, a: nat, b: nat)
    requires a > 0 && b > 0
    ensures n / a / b == n / (a * b)
    ensures n % (a * b) == a * ((n / a) % b) + n % a
  {
    var q := n / a;
    var r := n % a;
    var q2 := q / b;
    var r2 := q % b;
    assert n == a * q + r;
    assert q == b * q2 + r2;
    Distrib(a, b, q2, r2, r);
    MulLess(a, r2, b);
    DivModUnique(n, a * b, q2, a * r2 + r);
  }

  /** Shifting left by `k` and back right by `k` loses nothing. */
  lemma MulDiv(x: nat, y: nat, d: nat)
    requires d > 0 && y < d
    ensures (x * d + y) / d == x && (x * d + y) % d == y
  {
    DivModUnique(x * d + y, d, x, y);
  }

  lemma {:induction false} ShrIsDiv(a: nat, k: nat)
    ensures Shr(a, k) == a / Pow2(k)
    ensures Low(a, k) == a % Pow2(k)
    decreases k
  {
    if k > 0 {
      ShrIsDiv(a / 2, k - 1);
      DivDiv(a, 2, Pow2(k - 1));
    }
  }

  lemma {:induction false} ShrShr(a: nat, j: nat, k: nat)
    ensures Shr(Shr(a, j), k) == Shr(a, j + k)
    decreases j
  {
    if j > 0 {
      ShrShr(a / 2, j - 1, k);
    }
  }

  // ---------------------------------------------------------------------------
  // Bitwise OR

  lemma OrStep(a: nat, b: nat)
    ensures Or(a, b) == 2 * Or(a / 2, b / 2) + (if a % 2 == 1 || b % 2 == 1 then 1 else 0)
  {
    if a == 0 && b == 0 {
      assert Or(0, 0) == 0;
    }
  }

  lemma {:induction false} OrZero(a: nat)
    ensures Or(a, 0) == a && Or(0, a) == a
    decreases a
  {
    if a > 0 {
      OrZero(a / 2);
    }
  }

  /** OR with a value that fits below bit `k` of a multiple of 2^k is addition. */
  lemma {:induction false} OrLow(x: nat, y: nat, k: nat)
    requires y < Pow2(k)
    ensures Or(x * Pow2(k), y) == x * Pow2(k) + y
    decreases k
  {
    if k == 0 {
      OrZero(x);
    } else {
      var a := x * Pow2(k);
      assert a == 2 * (x * Pow2(k - 1));
      assert a / 2 == x * Pow2(k - 1) && a % 2 == 0;
      OrLow(x, y / 2, k - 1);
      OrStep(a, y);
    }
  }

  lemma OrDouble(x: nat, y: nat)
    ensures Or(2 * x, 2 * y) == 2 * Or(x, y)
  {
    OrStep(2 * x, 2 * y);
  }

  /** The high part of an OR is the OR of the high parts. */
  lemma {:induction false} OrShr(a: nat, b: nat, k: nat)
    ensures Shr(Or(a, b), k) == Or(Shr(a, k), Shr(b, k))
    decreases k
  {
    if k > 0 {
      OrStep(a, b);
      assert Or(a, b) / 2 == Or(a / 2, b / 2);
      OrShr(a / 2, b / 2, k - 1);
    }
  }

  /** The low part of an OR is the OR of the low parts. */
  lemma {:induction false} OrLowBits(a: nat, b: nat, k: nat)
    ensures Low(Or(a, b), k) == Or(Low(a, k), Low(b, k))
    decreases k
  {
    if k == 0 {
      OrZero(0);
    } else {
      OrStep(a, b);
      assert Or(a, b) / 2 == Or(a / 2, b / 2);
      OrLowBits(a / 2, b / 2, k - 1);
      var la, lb := Low(a, k), Low(b, k);
      assert la / 2 == Low(a / 2, k - 1) && la % 2 == a % 2;
      assert lb / 2 == Low(b / 2, k - 1) && lb % 2 == b % 2;
      OrStep(la, lb);
    }
  }

  lemma OrMod(a: nat, b: nat, k: nat)
    ensures Or(a, b) % Pow2(k) == Or(a % Pow2(k), b % Pow2(k))
  {
    OrLowBits(a, b, k);
    ShrIsDiv(Or(a, b), k);
    ShrIsDiv(a, k);
    ShrIsDiv(b, k);
  }

  lemma {:induction false} OrBound(a: nat, b: nat, k: nat)
    requires a < Pow2(k) && b < Pow2(k)
    ensures Or(a, b) < Pow2(k)
    decreases k
  {
    if k == 0 {
      assert a == 0 && b == 0;
      OrZero(0);
    } else {
      OrBound(a / 2, b / 2, k - 1);
      OrStep(a, b);
    }
  }

  lemma OrBound64(a: u64, b: u64)
    ensures Or(a, b) < TWO_64
  {
    Pow2Values();
    OrBound(a, b, 64);
  }

  lemma OrBoundByte(a: byte, b: byte)
    ensures Or(a, b) < 256
  {
    Pow2Values();
    OrBound(a, b, 8);
  }

  /** Bit `k` of an OR is set iff it is set in either operand. */
  lemma OrBit(a: nat, b: nat, k: nat)
    ensures Bit(Or(a, b), k) <==> Bit(a, k) || Bit(b, k)
  {
    OrShr(a, b, k);
    OrStep(Shr(a, k), Shr(b, k));
  }

  /** Bit `j` of 2^k is set exactly when `j == k`. */
  lemma {:induction false} Pow2Bit(k: nat, j: nat)
    ensures Bit(Pow2(k), j) <==> j == k
    decreases k
  {
    if k == 0 {
      if j > 0 {
        ShrZero(0, j - 1);
      }
    } else if j > 0 {
      assert Pow2(k) / 2 == Pow2(k - 1);
      Pow2Bit(k - 1, j - 1);
    }
  }

  lemma {:induction false} ShrZero(a: nat, k: nat)
    requires a < 2
    ensures Shr(a / 2, k) == 0
    decreases k
  {
    if k > 0 {
      ShrZero(0, k - 1);
    }
  }

  /** Two numbers below 2^n that agree on every bit below n are equal. */
  lemma {:induction false} BitsExt(a: nat, b: nat, n: nat)
    requires a < Pow2(n) && b < Pow2(n)
    requires forall j :: 0 <= j < n ==> (Bit(a, j) <==> Bit(b, j))
    ensures a == b
    decreases n
  {
    if n > 0 {
      assert Bit(a, 0) <==> Bit(b, 0);
      forall j | 0 <= j < n - 1
        ensures Bit(a / 2, j) <==> Bit(b / 2, j)
      {
        assert Bit(a, j + 1) <==> Bit(b, j + 1);
      }
      BitsExt(a / 2, b / 2, n - 1);
    }
  }

  // ---------------------------------------------------------------------------
  // OR on the bytes of a 64-bit word

  /** The lowest byte of an OR. */
  lemma OrByte0(a: nat, b: nat)
    ensures Or(a, b) % 256 == Or(a % 256, b % 256)
  {
    Pow2Values();
    OrMod(a, b, 8);
  }

  /** The second-lowest byte of an OR. */
  lemma OrByte1(a: nat, b: nat)
    ensures (Or(a, b) / 256) % 256 == Or((a / 256) % 256, (b / 256) % 256)
  {
    Pow2Values();
    OrShr(a, b, 8);
    ShrIsDiv(Or(a, b), 8);
    ShrIsDiv(a, 8);
    ShrIsDiv(b, 8);
    OrMod(a / 256, b / 256, 8);
  }

  /** The bits above the lowest byte of an OR. */
  lemma OrDiv256(a: nat, b: nat)
    ensures Or(a, b) / 256 == Or(a / 256, b / 256)
  {
    Pow2Values();
    OrShr(a, b, 8);
    ShrIsDiv(Or(a, b), 8);
    ShrIsDiv(a, 8);
    ShrIsDiv(b, 8);
  }

  /** ORing a byte into a value shifted left by 8 is addition. */
  lemma OrLow8(x: nat, y: byte)
    ensures Or(x * 256, y) == x * 256 + y
  {
    Pow2Values();
    OrLow(x, y, 8);
  }

  /** ORing two values splits at bit 8 into the OR of their high parts and the OR
      of their low bytes. */
  lemma OrSplit8(x: nat, p: nat, y: nat, q: nat)
    requires p < 256 && q < 256
    ensures Or(x * 256 + p, y * 256 + q) == Or(x, y) * 256 + Or(p, q)
  {
    var a, b := x * 256 + p, y * 256 + q;
    var o := Or(a, b);
    assert a / 256 == x && a % 256 == p by {
      MulDiv(x, p, 256);
    }
    assert b / 256 == y && b % 256 == q by {
      MulDiv(y, q, 256);
    }
    assert o % 256 == Or(p, q) by {
      OrByte0(a, b);
    }
    assert o / 256 == Or(x, y) by {
      OrDiv256(a, b);
    }
  }


  /** ORing in a value of at most 16 bits leaves the bits above 16 alone. */
  lemma OrHigh16(a: nat, m: nat)
    requires m < 65536
    ensures Or(a, m) / 65536 == a / 65536
  {
    Pow2Values();
    OrShr(a, m, 16);
    ShrIsDiv(Or(a, m), 16);
    ShrIsDiv(a, 16);
    ShrIsDiv(m, 16);
    OrZero(a / 65536);
  }

  /** ORing a value of at most 16 bits into a multiple of 2^16 is addition. */
  lemma OrLow16(x: nat, y: nat)
    requires y < 65536
    ensures Or(x * 65536, y) == x * 65536 + y
  {
    Pow2Values();
    OrLow(x, y, 16);
  }

  // ---------------------------------------------------------------------------
  // Shifts

  lemma {:induction false} ShlSucc(a: nat, k: nat)
    ensures Shl(a, k + 1) == Shl(2 * a, k)
    decreases k
  {
    if k > 0 {
      ShlSucc(a, k - 1);
    }
  }

  lemma {:induction false} ShlBound(a: nat, n: nat, k: nat)
    requires a < Pow2(n)
    ensures Shl(a, k) < Pow2(n + k)
    decreases k
  {
    if k > 0 {
      ShlBound(a, n, k - 1);
    }
  }

  lemma {:induction false} ShrBound(a: nat, n: nat, k: nat)
    requires a < Pow2(n) && k <= n
    ensures Shr(a, k) < Pow2(n - k)
    decreases k
  {
    if k > 0 {
      ShrBound(a / 2, n - 1, k - 1);
    }
  }

  lemma {:induction false} LowBound(a: nat, k: nat)
    ensures Low(a, k) < Pow2(k)
    decreases k
  {
    if k > 0 {
      LowBound(a / 2, k - 1);
    }
  }

  /** `(x << k) | y` is `(x << k) + y` when `y` fits in `k` bits. */
  lemma {:induction false} OrShlLow(x: nat, y: nat, k: nat)
    requires y < Pow2(k)
    ensures Or(Shl(x, k), y) == Shl(x, k) + y
    decreases k
  {
    if k == 0 {
      OrZero(x);
    } else {
      OrLowStep(Shl(x, k - 1), y);
      OrShlLow(x, y / 2, k - 1);
    }
  }

  lemma OrLowStep(h: nat, y: nat)
    ensures Or(2 * h, y) == 2 * Or(h, y / 2) + y % 2
  {
    OrStep(2 * h, y);
  }

  /** OR commutes with a left shift of both operands. */
  lemma {:induction false} OrShl(a: nat, b: nat, k: nat)
    ensures Or(Shl(a, k), Shl(b, k)) == Shl(Or(a, b), k)
    decreases k
  {
    if k > 0 {
      OrShl(a, b, k - 1);
      OrDouble(Shl(a, k - 1), Shl(b, k - 1));
    }
  }

  /** Splitting `(x << k) + y`, with `y` in `k` bits, at bit `k`. */
  lemma {:induction false} ShrShlPlus(x: nat, y: nat, k: nat)
    requires y < Pow2(k)
    ensures Shr(Shl(x, k) + y, k) == x
    ensures Low(Shl(x, k) + y, k) == y
    decreases k
  {
    if k > 0 {
      var v := Shl(x, k) + y;
      assert v / 2 == Shl(x, k - 1) + y / 2 && v % 2 == y % 2;
      ShrShlPlus(x, y / 2, k - 1);
    }
  }

  /** Every value is its bits above `k` shifted back plus its bits below `k`. */
  lemma {:induction false} ShlShrLow(a: nat, k: nat)
    ensures Shl(Shr(a, k), k) + Low(a, k) == a
    decreases k
  {
    if k > 0 {
      ShlShrLow(a / 2, k - 1);
      ShlSucc(Shr(a / 2, k - 1), k - 1);
      ShlDouble(Shr(a / 2, k - 1), k - 1);
    }
  }

  lemma {:induction false} ShlDouble(a: nat, k: nat)
    ensures Shl(2 * a, k) == 2 * Shl(a, k)
    decreases k
  {
    if k > 0 {
      ShlDouble(a, k - 1);
    }
  }

  lemma {:induction false} ShrLe(a: nat, k: nat)
    ensures Shr(a, k) <= a
    decreases k
  {
    if k > 0 {
      ShrLe(a / 2, k - 1);
    }
  }

  lemma {:induction false} LowLe(a: nat, k: nat)
    ensures Low(a, k) <= a
    decreases k
  {
    if k > 0 {
      LowLe(a / 2, k - 1);
    }
  }

  /** `1 << k` is 2^k. */
  lemma {:induction false} ShlOne(k: nat)
    ensures Shl(1, k) == Pow2(k)
    decreases k
  {
    if k > 0 {
      ShlOne(k - 1);
    }
  }

  /** Masking to the low `k` bits keeps exactly the bits below `k`. */
  lemma {:induction false} LowBit(a: nat, k: nat, j: nat)
    ensures Bit(Low(a, k), j) <==> j < k && Bit(a, j)
    decreases k
  {
    if k == 0 {
      ShrZero(0, j);
    } else if j > 0 {
      LowBit(a / 2, k - 1, j - 1);
      assert Low(a, k) / 2 == Low(a / 2, k - 1);
    }
  }
}
