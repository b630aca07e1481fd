/** Bitwise operators on machine integers, and the mask form of `align_up`. */
module BitMask {
  import opened Machine

  const WORD_BITS: nat := 64

  function Pow2(k: nat): (r: nat)
    ensures r > 0
  {
    if k == 0 then 1 else 2 * Pow2(k - 1)
  }

  /** Bitwise `&`. */
  function And(a: nat, b: nat): nat {
    if a == 0 || b == 0 then 0
    else 2 * And(a / 2, b / 2) + (if a % 2 == 1 && b % 2 == 1 then 1 else 0)
  }

  /** Bitwise `!` on `width` bits. */
  function Not(a: nat, width: nat): nat {
    if width == 0 then 0 else 2 * Not(a / 2, width - 1) + (1 - a % 2)
  }

  function IsPowerOfTwo(x: nat): bool {
    x == 1 || (x > 1 && x % 2 == 0 && IsPowerOfTwo(x / 2))
  }

  lemma {:induction false} PowerOfTwoHasExponent(x: nat) returns (k: nat)
    requires IsPowerOfTwo(x)
    ensures x == Pow2(k)
  {
    if x == 1 {
      k := 0;
    } else {
      k := PowerOfTwoHasExponent(x / 2);
      k := k + 1;
    }
  }

  lemma {:induction false} Pow2IsPowerOfTwo(k: nat)
    ensures IsPowerOfTwo(Pow2(k))
  {
    if k > 0 {
      Pow2IsPowerOfTwo(k - 1);
    }
  }

  lemma {:induction false} Pow2Monotone(i: nat, k: nat)
    requires i <= k
    ensures Pow2(i) <= Pow2(k)
  {
    if i < k {
      Pow2Monotone(i, k - 1);
    }
  }

  lemma {:induction false} Pow2Split(i: nat, k: nat)
    ensures Pow2(i + k) == Pow2(i) * Pow2(k)
  {
    if i > 0 {
      Pow2Split(i - 1, k);
    }
  }

  lemma Pow2Double(k: nat, p: nat)
    requires Pow2(k) == p
    ensures Pow2(k + k) == p * p
  {
    Pow2Split(k, k);
  }

  lemma Pow2AtWord(w: nat)
    ensures w == 64 ==> Pow2(w) == U64_LIMIT
    ensures w == 32 ==> Pow2(w) == U32_LIMIT
  {
    Pow2Double(4, 16);
    Pow2Double(8, 0x100);
    Pow2Double(16, 0x1_0000);
    Pow2Double(32, 0x1_0000_0000);
  }

  /** `a % b` for a divisor that is not a constant. */
  function Remainder(a: nat, b: nat): nat
    requires b > 0
  {
    if a < b then a else Remainder(a - b, b)
  }

  lemma {:induction false} RemainderIsModulo(a: nat, b: nat)
    requires b > 0
    ensures Remainder(a, b) == a % b
  {
    if a < b {
      RemainderUnique(a, b, 0, a);
    } else {
      RemainderIsModulo(a - b, b);
      var q := (a - b) / b;
      assert a - b == b * q + (a - b) % b;
      RemainderUnique(a, b, q + 1, (a - b) % b);
    }
  }

  /** The complement of a value that fits the width. */
  lemma {:induction false} NotIsComplement(a: nat, width: nat)
    requires a < Pow2(width)
    ensures Not(a, width) == Pow2(width) - 1 - a
  {
    if width > 0 {
      NotIsComplement(a / 2, width - 1);
    }
  }

  /** Anding with an all-ones word keeps a value that fits in it. */
  lemma {:induction false} AndOnes(x: nat, width: nat)
    requires x < Pow2(width)
    ensures And(x, Not(0, width)) == x
  {
    if width > 0 && x > 0 {
      AndOnes(x / 2, width - 1);
      OnesPositive(width);
      if width > 1 {
        OnesPositive(width - 1);
      }
    }
  }

  lemma {:induction false} OnesPositive(width: nat)
    requires width > 0
    ensures Not(0, width) > 0
  {
    if width > 1 {
      OnesPositive(width - 1);
    }
  }

  /** One step of `&` with an odd mask. */
  lemma AndOdd(x: nat, half: nat)
    requires x > 0
    ensures And(x, 2 * half + 1) == 2 * And(x / 2, half) + x % 2
  {
  }

  lemma RemainderByTwice(x: nat, p: nat)
    requires p > 0
    ensures Remainder(x, 2 * p) == 2 * Remainder(x / 2, p) + x % 2
  {
    hide Remainder;
    RemainderIsModulo(x, 2 * p);
    RemainderIsModulo(x / 2, p);
    HalfRemainder(x, p);
  }

  /** `x & (2^k - 1)` keeps the low `k` bits. */
  lemma {:induction false} LowMask(x: nat, k: nat)
    ensures And(x, Pow2(k) - 1) == Remainder(x, Pow2(k))
  {
    if k == 0 {
      RemainderIsModulo(x, 1);
    } else if x > 0 {
      hide And, Remainder;
      LowMask(x / 2, k - 1);
      AndOdd(x, Pow2(k - 1) - 1);
      RemainderByTwice(x, Pow2(k - 1));
    }
  }

  /** `x & !(2^k - 1)` clears the low `k` bits. */
  lemma {:induction false} MaskClearsLowBits(x: nat, k: nat, width: nat)
    requires k <= width
    requires x < Pow2(width)
    ensures And(x, Not(Pow2(k) - 1, width)) == x - x % Pow2(k)
  {
    if k == 0 {
      AndOnes(x, width);
    } else {
      var p := Pow2(k - 1);
      var half := Not(p - 1, width - 1);
      assert Not(2 * p - 1, width) == 2 * half by {
        assert (2 * p - 1) / 2 == p - 1 && (2 * p - 1) % 2 == 1;
      }
      MaskClearsLowBits(x / 2, k - 1, width - 1);
      AndEven(x, half);
      HalfRemainder(x, p);
    }
  }

  lemma AndEven(x: nat, m: nat)
    ensures And(x, 2 * m) == 2 * And(x / 2, m)
  {
    assert 2 * m / 2 == m;
  }

  lemma HalfRemainder(x: nat, p: nat)
    requires p > 0
    ensures 2 * (x / 2 - (x / 2) % p) == x - x % (2 * p)
  {
    var q := (x / 2) / p;
    var r := (x / 2) % p;
    assert x / 2 == p * q + r;
    assert x == (2 * p) * q + (2 * r + x % 2);
    RemainderUnique(x, 2 * p, q, 2 * r + x % 2);
    assert 2 * (p * q) == (2 * p) * q;
  }

  lemma RemainderUnique(x: nat, d: nat, q: nat, r: nat)
    requires d > 0 && r < d
    requires x == d * q + r
    ensures x % d == r && x / d == q
  {
    var q' := x / d;
    var r' := x % d;
    assert d * q' + r' == d * q + r;
    if q' > q {
      MulMonotone(d, q + 1, q');
      assert false;
    } else if q' < q {
      MulMonotone(d, q' + 1, q);
      assert false;
    }
  }

  lemma MulMonotone(a: nat, x: int, y: int)
    requires x <= y
    ensures a * x <= a * y
  {
  }

  /** `align_up` in its mask form; `None` when the addition overflows. */
  function AlignUp(value: u64, alignment: u64): Option<u64>
    requires alignment > 0
  {
    match CheckedAdd(value, alignment - 1)
    case None => None
    case Some(sum) =>
      var masked := And(sum, Not(alignment - 1, WORD_BITS));
      AndAtMost(sum, Not(alignment - 1, WORD_BITS));
      Some(masked)
  }

  lemma {:induction false} AndAtMost(a: nat, b: nat)
    ensures And(a, b) <= a
  {
    if a != 0 && b != 0 {
      AndAtMost(a / 2, b / 2);
    }
  }

  /**
    For every power-of-two alignment the mask form returns the least multiple not below
    the value, and fails exactly when that multiple does not fit in a `u64`.
  */
  lemma AlignUpIsLeastMultiple(value: u64, alignment: u64, q: nat)
    requires IsPowerOfTwo(alignment)
    requires value <= alignment * q < value + alignment
    ensures AlignUp(value, alignment)
         == if alignment * q < U64_LIMIT then Some(alignment * q) else None
  {
    FitsExactly(value, alignment, q);
    if value + (alignment - 1) < U64_LIMIT {
      MaskedSum(value + (alignment - 1), alignment, q);
    }
  }

  lemma FitsExactly(value: u64, alignment: u64, q: nat)
    requires IsPowerOfTwo(alignment)
    requires value <= alignment * q < value + alignment
    ensures alignment * q < U64_LIMIT <==> value + (alignment - 1) < U64_LIMIT
  {
    var k := ExponentBelow64(alignment);
    var c := CofactorOf64(alignment, k);
    if alignment * q < U64_LIMIT {
      NextMultiple(alignment, q, c);
    }
  }

  lemma ExponentBelow64(alignment: u64) returns (k: nat)
    requires IsPowerOfTwo(alignment)
    ensures k < 64 && alignment == Pow2(k)
  {
    k := PowerOfTwoHasExponent(alignment);
    Pow2AtWord(64);
    if k >= 64 {
      Pow2Monotone(64, k);
      assert false;
    }
  }

  lemma CofactorOf64(alignment: u64, k: nat) returns (c: nat)
    requires k < 64 && alignment == Pow2(k)
    ensures alignment * c == U64_LIMIT
  {
    c := Pow2(64 - k);
    Pow2AtWord(64);
    Pow2Split(k, 64 - k);
  }

  lemma MaskedSum(sum: u64, alignment: u64, q: nat)
    requires IsPowerOfTwo(alignment)
    requires sum - alignment < alignment * q <= sum
    ensures And(sum, Not(alignment - 1, WORD_BITS)) == alignment * q
  {
    var k := ExponentBelow64(alignment);
    Pow2AtWord(WORD_BITS);
    MaskClearsLowBits(sum, k, WORD_BITS);
    RemainderUnique(sum, alignment, q, sum - alignment * q);
  }

  lemma NextMultiple(d: nat, q: nat, c: nat)
    requires d * q < d * c
    ensures d * q + d <= d * c
  {
    if c <= q {
      MulMonotone(d, c, q);
      assert false;
    }
    MulMonotone(d, q + 1, c);
  }

  /** Page rounding, the one use the loader makes of `align_up`. */
  lemma AlignUpPage(value: u64)
    ensures IsPowerOfTwo(4096)
    ensures var least := 4096 * ((value + 4095) / 4096);
            AlignUp(value, 4096) == if least < U64_LIMIT then Some(least) else None
  {
    assert Pow2(12) == 4096;
    Pow2IsPowerOfTwo(12);
    AlignUpIsLeastMultiple(value, 4096, (value + 4095) / 4096);
  }

  /** `flags & bit != 0` for a single-bit mask. */
  predicate HasFlag(flags: nat, bit: nat)
    requires bit > 0
  {
    flags / bit % 2 == 1
  }

  /** The arithmetic flag test is the mask test, for every bit. */
  lemma {:induction false} HasFlagIsMask(flags: nat, k: nat)
    ensures HasFlag(flags, Pow2(k)) <==> And(flags, Pow2(k)) != 0
  {
    if k == 0 {
      assert And(flags, 1) == flags % 2;
    } else {
      HasFlagIsMask(flags / 2, k - 1);
      AndEven(flags, Pow2(k - 1));
      HalvedQuotient(flags, Pow2(k - 1));
    }
  }

  lemma HalvedQuotient(x: nat, p: nat)
    requires p > 0
    ensures x / (2 * p) == x / 2 / p
  {
    var q := x / 2 / p;
    var r := x / 2 % p;
    assert x / 2 == p * q + r;
    assert x == (2 * p) * q + (2 * r + x % 2);
    RemainderUnique(x, 2 * p, q, 2 * r + x % 2);
  }

  /** No bit outside the low `k` is set exactly when the value is below `2^k`. */
  lemma NoHighBits(x: nat, k: nat, width: nat)
    requires k <= width && x < Pow2(width)
    ensures And(x, Not(Pow2(k) - 1, width)) == 0 <==> x < Pow2(k)
  {
    MaskClearsLowBits(x, k, width);
    if x < Pow2(k) {
      RemainderUnique(x, Pow2(k), 0, x);
    }
  }
}
