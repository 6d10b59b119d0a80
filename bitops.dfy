/**
 * Bit operations on unbounded naturals. Arbitrary-precision values of the
 * generic layer (GMP integers) and the fixed-width words of the algorithms
 * are both modelled as `nat`; a fixed width is a bound `v < Pow2(w)`.
 */
module BitOps {
  function Pow2(n: nat): (r: nat)
    ensures r >= 1
  {
    if n == 0 then 1 else 2 * Pow2(n - 1)
  }

  /** The all-ones value of k bits, 2^k - 1. */
  function Ones(k: nat): nat
  {
    Pow2(k) - 1
  }

  /** Bitwise and. */
  function And(a: nat, b: nat): nat
    decreases a
  {
    if a == 0 || b == 0 then 0
    else 2 * And(a / 2, b / 2) + (if a % 2 == 1 && b % 2 == 1 then 1 else 0)
  }

  /** Bitwise or. */
  function Or(a: nat, b: nat): nat
    decreases a + b
  {
    if a == 0 then b
    else if b == 0 then a
    else 2 * Or(a / 2, b / 2) + (if a % 2 == 1 || b % 2 == 1 then 1 else 0)
  }

  /** Bitwise exclusive or. */
  function Xor(a: nat, b: nat): nat
    decreases a + b
  {
    if a == 0 then b
    else if b == 0 then a
    else 2 * Xor(a / 2, b / 2) + (if a % 2 != b % 2 then 1 else 0)
  }

  /** `a & ~b`: the bits of a that are clear in b. */
  function AndNot(a: nat, b: nat): nat
    decreases a
  {
    if a == 0 then 0
    else 2 * AndNot(a / 2, b / 2) + (if a % 2 == 1 && b % 2 == 0 then 1 else 0)
  }

  /** Bit i of v. */
  predicate Bit(v: nat, i: nat)
  {
    (v / Pow2(i)) % 2 == 1
  }

  /** `v >> k`. */
  function Shr(v: nat, k: nat): nat
  {
    DivNat(v, Pow2(k));
    v / Pow2(k)
  }

  lemma DivNat(v: nat, d: nat)
    requires d >= 1
    ensures v / d >= 0
  {
  }

  /** The number of binary digits of v: the least k with v < 2^k. */
  function BitLength(v: nat): nat
    decreases v
  {
    if v == 0 then 0 else 1 + BitLength(v / 2)
  }

  /** The number of set bits among the low `width` bits of v. */
  function PopCount(v: nat, width: nat): nat
  {
    if width == 0 then 0 else v % 2 + PopCount(v / 2, width - 1)
  }

  /** The `width`-bit mask whose low k bits are clear and whose other bits are set. */
  function HighMask(width: nat, k: nat): nat
    requires k <= width
  {
    Pow2Monotone(k, width);
    Pow2(width) - Pow2(k)
  }

  /** The mask of the top `len` bits of a `width`-bit word. */
  function PrefixMask(len: nat, width: nat): nat
    requires len <= width
  {
    HighMask(width, width - len)
  }

  // ---------------------------------------------------------------------
  // Arithmetic facts about powers of two
  // ---------------------------------------------------------------------

  lemma {:induction false} Pow2Add(a: nat, b: nat)
    ensures Pow2(a + b) == Pow2(a) * Pow2(b)
    decreases a
  {
    if a > 0 {
      Pow2Add(a - 1, b);
    }
  }

  lemma {:induction false} Pow2Monotone(a: nat, b: nat)
    requires a <= b
    ensures Pow2(a) <= Pow2(b)
    decreases b - a
  {
    if a < b {
      Pow2Monotone(a, b - 1);
    }
  }

  lemma {:induction false} MulAtLeast(d: int, n: int)
    requires d > 0 && n >= 1
    ensures d * n >= d
    decreases n
  {
    if n > 1 {
      MulAtLeast(d, n - 1);
      assert d * n == d * (n - 1) + d;
    }
  }

  /** Euclidean division is unique. */
  lemma DivModUnique(v: int, d: int, q: int, r: int)
    requires d > 0 && 0 <= r < d && v == d * q + r
    ensures v / d == q && v % d == r
  {
    var q0, r0 := v / d, v % d;
    assert v == d * q0 + r0;
    if q > q0 {
      var n := q - q0;
      assert d * q == d * q0 + d * n;
      MulAtLeast(d, n);
    } else if q < q0 {
      var n := q0 - q;
      assert d * q0 == d * q + d * n;
      MulAtLeast(d, n);
    }
  }

  lemma SmallMod(v: nat, d: nat)
    requires v < d
    ensures v % d == v
  {
    DivModUnique(v, d, 0, v);
  }

  lemma MulCancel(b: nat, x: nat, y: nat)
    requires b > 0 && b * x == b * y
    ensures x == y
  {
    DivModUnique(b * x, b, x, 0);
    DivModUnique(b * y, b, y, 0);
  }

  /** Rounding p down to a multiple of b gives a multiple of b. */
  lemma AlignedBase(p: nat, b: nat)
    requires b > 0
    ensures (p - p % b) % b == 0
  {
    assert p - p % b == b * (p / b);
    DivModUnique(p - p % b, b, p / b, 0);
  }

  /** v lies in the aligned block of b values holding p iff both round down alike. */
  lemma InAlignedBlock(v: nat, p: nat, b: nat)
    requires b > 0
    ensures p - p % b <= v <= p - p % b + b - 1 <==> v - v % b == p - p % b
  {
    var lo := p - p % b;
    assert lo == b * (p / b);
    assert v - v % b == b * (v / b);
    if lo <= v <= lo + b - 1 {
      DivModUnique(v, b, p / b, v - lo);
    }
    if v - v % b == lo {
      MulCancel(b, v / b, p / b);
    }
  }

  /** Dividing by 2^k splits off the lowest bit first. */
  lemma ModPow2Step(v: nat, k: nat)
    requires k > 0
    ensures v % Pow2(k) == 2 * ((v / 2) % Pow2(k - 1)) + v % 2
    ensures v / Pow2(k) == (v / 2) / Pow2(k - 1)
  {
    var p := Pow2(k - 1);
    var q, s := (v / 2) / p, (v / 2) % p;
    assert v / 2 == p * q + s;
    assert v == (2 * p) * q + (2 * s + v % 2);
    DivModUnique(v, 2 * p, q, 2 * s + v % 2);
  }

  /** Bit i > 0 of v is bit i - 1 of v / 2. */
  lemma BitStep(v: nat, i: nat)
    requires i > 0
    ensures Bit(v, i) == Bit(v / 2, i - 1)
  {
    ModPow2Step(v, i);
  }

  lemma {:induction false} BitLengthBound(v: nat)
    ensures v < Pow2(BitLength(v))
    ensures v > 0 ==> Pow2(BitLength(v) - 1) <= v
    decreases v
  {
    if v > 0 {
      BitLengthBound(v / 2);
    }
  }

  /** BitLength(v) is the least k with v < 2^k. */
  lemma {:induction false} BitLengthLeast(v: nat, k: nat)
    requires v < Pow2(k)
    ensures BitLength(v) <= k
    decreases k
  {
    if v > 0 {
      BitLengthLeast(v / 2, k - 1);
    }
  }

  /** A value between 2^(k-1) and 2^k has exactly k binary digits. */
  lemma {:induction false} BitLengthExact(v: nat, k: nat)
    requires k >= 1 && Pow2(k - 1) <= v < Pow2(k)
    ensures BitLength(v) == k
    decreases k
  {
    if k > 1 {
      BitLengthExact(v / 2, k - 1);
    }
  }

  // ---------------------------------------------------------------------
  // Facts about the bitwise operations
  // ---------------------------------------------------------------------

  lemma {:induction false} AndComm(a: nat, b: nat)
    ensures And(a, b) == And(b, a)
    decreases a
  {
    if a != 0 && b != 0 {
      AndComm(a / 2, b / 2);
    }
  }

  /** Clearing the bits of v from k ones leaves 2^k - 1 - (v mod 2^k). */
  lemma {:induction false} AndNotOnes(k: nat, v: nat)
    ensures AndNot(Ones(k), v) == Ones(k) - v % Pow2(k)
    decreases k
  {
    if k > 0 {
      AndNotOnes(k - 1, v / 2);
      ModPow2Step(v, k);
      assert Ones(k) / 2 == Ones(k - 1) && Ones(k) % 2 == 1;
    }
  }

  /** For v below 2^k, xor with k ones is subtraction from 2^k - 1. */
  lemma {:induction false} XorOnes(k: nat, v: nat)
    requires v < Pow2(k)
    ensures Xor(Ones(k), v) == Ones(k) - v
    decreases k
  {
    if k > 0 && v > 0 {
      XorOnes(k - 1, v / 2);
      assert Ones(k) / 2 == Ones(k - 1) && Ones(k) % 2 == 1;
    }
  }

  /** Masking a `width`-bit value with its top bits clears its low k bits. */
  lemma {:induction false} AndHighMask(v: nat, width: nat, k: nat)
    requires k <= width && v < Pow2(width)
    ensures And(v, HighMask(width, k)) == v - v % Pow2(k)
    decreases k
  {
    if k == 0 {
      AndOnesLow(v, width);
    } else if k == width {
      assert HighMask(width, k) == 0;
      SmallMod(v, Pow2(k));
    } else if v == 0 {
      assert And(v, HighMask(width, k)) == 0;
    } else {
      assert v / 2 < Pow2(width - 1);
      AndHighMask(v / 2, width - 1, k - 1);
      AndHighMaskStep(v, width, k);
    }
  }

  lemma AndHighMaskStep(v: nat, width: nat, k: nat)
    requires 0 < k < width && 0 < v < Pow2(width)
    requires And(v / 2, HighMask(width - 1, k - 1)) == v / 2 - (v / 2) % Pow2(k - 1)
    ensures And(v, HighMask(width, k)) == v - v % Pow2(k)
  {
    var m := HighMask(width, k);
    var m2 := HighMask(width - 1, k - 1);
    Pow2Monotone(k, width - 1);
    assert m == 2 * m2;
    assert m != 0 && m / 2 == m2 && m % 2 == 0;
    assert And(v, m) == 2 * And(v / 2, m2);
    ModPow2Step(v, k);
  }

  /** A `width`-bit value is unchanged by the mask 2^width - 1. */
  lemma {:induction false} AndOnesLow(v: nat, width: nat)
    requires v < Pow2(width)
    ensures And(v, Pow2(width) - 1) == v
    decreases width
  {
    if v > 0 {
      assert width > 0;
      AndOnesLow(v / 2, width - 1);
    }
  }

  /** Or of a multiple of 2^k with a value below 2^k is their sum. */
  lemma {:induction false} OrDisjointLow(a: nat, b: nat, k: nat)
    requires a % Pow2(k) == 0 && b < Pow2(k)
    ensures Or(a, b) == a + b
    decreases k
  {
    if a != 0 && b != 0 {
      assert k > 0;
      ModPow2Step(a, k);
      OrDisjointLow(a / 2, b / 2, k - 1);
    }
  }

  /** Counting the bits below i + 1 adds bit i to the count below i. */
  lemma {:induction false} PopCountStep(v: nat, i: nat)
    ensures PopCount(v, i + 1) == PopCount(v, i) + (if Bit(v, i) then 1 else 0)
    decreases i
  {
    if i > 0 {
      PopCountStep(v / 2, i - 1);
      BitStep(v, i);
    }
  }

  /** The pop count of the top-`len` mask of a `width`-bit word is len. */
  lemma {:induction false} PopCountHighMask(width: nat, k: nat)
    requires k <= width
    ensures PopCount(HighMask(width, k), width) == width - k
    decreases width
  {
    if width > 0 {
      HighMaskHalf(width, k);
      if k == 0 {
        PopCountHighMask(width - 1, 0);
      } else {
        PopCountHighMask(width - 1, k - 1);
      }
    }
  }

  /** The low bit and the rest of a high mask. */
  lemma HighMaskHalf(width: nat, k: nat)
    requires 0 < width && k <= width
    ensures k == 0 ==> HighMask(width, k) % 2 == 1 && HighMask(width, k) / 2 == HighMask(width - 1, 0)
    ensures k > 0 ==> HighMask(width, k) % 2 == 0 && HighMask(width, k) / 2 == HighMask(width - 1, k - 1)
  {
    Pow2Monotone(0, width - 1);
    if k == 0 {
      Halves(HighMask(width, k), HighMask(width - 1, 0), 1);
    } else {
      Pow2Monotone(k - 1, width - 1);
      Halves(HighMask(width, k), HighMask(width - 1, k - 1), 0);
    }
  }

  // ---------------------------------------------------------------------
  // Single bits of the bitwise operations
  // ---------------------------------------------------------------------

  lemma {:induction false} BitAnd(a: nat, b: nat, i: nat)
    ensures Bit(And(a, b), i) == (Bit(a, i) && Bit(b, i))
    decreases i
  {
    if a == 0 || b == 0 {
      BitZero(i);
    } else {
      AndHalf(a, b);
      if i > 0 {
        BitStep(And(a, b), i);
        BitStep(a, i);
        BitStep(b, i);
        BitAnd(a / 2, b / 2, i - 1);
      } else {
        LowBit(And(a, b));
        LowBit(a);
        LowBit(b);
      }
    }
  }

  /** Bit 0 is the remainder modulo 2. */
  lemma LowBit(v: nat)
    ensures Bit(v, 0) == (v % 2 == 1)
  {
    assert Pow2(0) == 1;
  }

  /** The two halves of a value 2 * x + c with c a bit. */
  lemma Halves(v: nat, x: nat, c: nat)
    requires c < 2 && v == 2 * x + c
    ensures v / 2 == x && v % 2 == c
  {
  }

  /** The low bit and the rest of a bitwise and. */
  lemma AndHalf(a: nat, b: nat)
    requires a != 0 && b != 0
    ensures And(a, b) / 2 == And(a / 2, b / 2)
    ensures And(a, b) % 2 == if a % 2 == 1 && b % 2 == 1 then 1 else 0
  {
    Halves(And(a, b), And(a / 2, b / 2), if a % 2 == 1 && b % 2 == 1 then 1 else 0);
  }

  /** The low bit and the rest of a bitwise or. */
  lemma OrHalf(a: nat, b: nat)
    requires a != 0 && b != 0
    ensures Or(a, b) / 2 == Or(a / 2, b / 2)
    ensures Or(a, b) % 2 == if a % 2 == 1 || b % 2 == 1 then 1 else 0
  {
    Halves(Or(a, b), Or(a / 2, b / 2), if a % 2 == 1 || b % 2 == 1 then 1 else 0);
  }

  lemma {:induction false} BitOr(a: nat, b: nat, i: nat)
    ensures Bit(Or(a, b), i) == (Bit(a, i) || Bit(b, i))
    decreases i
  {
    if a == 0 {
      BitZero(i);
    } else if b == 0 {
      BitZero(i);
    } else {
      OrHalf(a, b);
      if i > 0 {
        BitStep(Or(a, b), i);
        BitStep(a, i);
        BitStep(b, i);
        BitOr(a / 2, b / 2, i - 1);
      } else {
        LowBit(Or(a, b));
        LowBit(a);
        LowBit(b);
      }
    }
  }

  lemma {:induction false} BitZero(i: nat)
    ensures !Bit(0, i)
  {
  }

  lemma {:induction false} BitPow2(k: nat, i: nat)
    ensures Bit(Pow2(k), i) == (i == k)
    decreases i
  {
    if i > 0 {
      BitStep(Pow2(k), i);
      if k > 0 {
        BitPow2(k - 1, i - 1);
      } else {
        BitZero(i - 1);
      }
    }
  }

  /** A value with no set bit below `width` and smaller than 2^width is 0. */
  lemma {:induction false} NoBitsIsZero(v: nat, width: nat)
    requires v < Pow2(width)
    requires forall i: nat :: i < width ==> !Bit(v, i)
    ensures v == 0
    decreases width
  {
    if width > 0 {
      forall i: nat | i < width - 1
        ensures !Bit(v / 2, i)
      {
        BitStep(v, i + 1);
      }
      NoBitsIsZero(v / 2, width - 1);
      assert !Bit(v, 0);
      assert v / Pow2(0) == v;
    }
  }

  /** Nonzero: the and of v with the single bit 2^k is positive iff bit k of v is set. */
  lemma AndPow2(v: nat, k: nat)
    ensures And(v, Pow2(k)) > 0 <==> Bit(v, k)
  {
    var x := And(v, Pow2(k));
    forall i: nat | i != k
      ensures !Bit(x, i)
    {
      BitAnd(v, Pow2(k), i);
      BitPow2(k, i);
    }
    BitAnd(v, Pow2(k), k);
    BitPow2(k, k);
    if x > 0 && !Bit(v, k) {
      AndBound(Pow2(k), v, k + 1);
      AndComm(v, Pow2(k));
      NoBitsIsZero(x, k + 1);
    }
    if Bit(v, k) && x == 0 {
      BitZero(k);
    }
  }

  lemma {:induction false} AndBound(a: nat, b: nat, w: nat)
    requires a < Pow2(w)
    ensures And(a, b) < Pow2(w) && And(a, b) <= a
    decreases a
  {
    if a != 0 && b != 0 {
      AndBound(a / 2, b / 2, w - 1);
    }
  }

  lemma {:induction false} OrBound(a: nat, b: nat, w: nat)
    requires a < Pow2(w) && b < Pow2(w)
    ensures Or(a, b) < Pow2(w)
    decreases a + b
  {
    if a != 0 && b != 0 {
      OrBound(a / 2, b / 2, w - 1);
    }
  }

  /** Two values below 2^w are equal iff they agree on every bit below w. */
  lemma {:induction false} BitsDetermine(a: nat, b: nat, w: nat)
    requires a < Pow2(w) && b < Pow2(w)
    requires forall i: nat :: i < w ==> Bit(a, i) == Bit(b, i)
    ensures a == b
    decreases w
  {
    if w > 0 {
      forall i: nat | i < w - 1
        ensures Bit(a / 2, i) == Bit(b / 2, i)
      {
        BitStep(a, i + 1);
        BitStep(b, i + 1);
      }
      BitsDetermine(a / 2, b / 2, w - 1);
      assert Bit(a, 0) == Bit(b, 0);
      assert a / Pow2(0) == a && b / Pow2(0) == b;
    }
  }

  lemma {:induction false} AndIdem(a: nat)
    ensures And(a, a) == a
    decreases a
  {
    if a != 0 {
      AndIdem(a / 2);
    }
  }

  lemma {:induction false} OrIdem(a: nat)
    ensures Or(a, a) == a
    decreases a
  {
    if a != 0 {
      OrIdem(a / 2);
    }
  }

  /** The number of values of a 32-bit unsigned word, as a literal. */
  const Limit32: nat := 0x1_0000_0000

  /** The powers of two that bound bytes, 16-bit and 32-bit words. */
  lemma Pow2Word()
    ensures Pow2(8) == 0x100 && Pow2(16) == 0x1_0000 && Pow2(32) == 0x1_0000_0000 == Limit32
  {
    Pow2Byte();
    Pow2Half();
    Pow2Add(16, 16);
  }

  lemma Pow2Byte()
    ensures Pow2(8) == 0x100
  {
    assert Pow2(4) == 16;
    Pow2Add(4, 4);
  }

  lemma Pow2Half()
    ensures Pow2(16) == 0x1_0000
  {
    Pow2Byte();
    Pow2Add(8, 8);
  }
}
