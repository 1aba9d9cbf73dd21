/** The machine the kernel runs on: bytes, 32-bit words, wrap-around, and the bitwise operators on words. */
module Machine {
  type byte = x: int | 0 <= x < 0x100
  type uint16 = x: int | 0 <= x < 0x1_0000
  type uint32 = x: int | 0 <= x < 0x1_0000_0000

  // Status codes (src/errors.h, src/config.h).
  const OK := 0
  const SYSTEM_FAIL := -49
  const INVALID_ARGUMENT := -50
  const NOT_IMPLEMENTED := -255
  const DISK_FAIL_TO_READ_STREAM := -201
  const DISK_FAIL_TO_WRITE_STREAM := -203
  const HEAP_MEMORY_NOT_ALIGNED := -301
  const PAGING_MEMORY_NOT_ALIGNED := -401
  const FS_INVALID_FILE_DESCRIPTOR := -503

  datatype Option<+T> = None | Some(value: T)  {
    function GetOr(default: T): T { if Some? then value else default }
  }

  /** Conversion to `unsigned int`: the value brought into range by steps of 2^32. */
  function U32(x: int): uint32
    decreases if x < 0 then 0x1_0000_0000 - x else x
  {
    if x < 0 then U32(x + 0x1_0000_0000)
    else if x >= 0x1_0000_0000 then U32(x - 0x1_0000_0000)
    else x
  }

  lemma {:induction false} U32IsModulo(x: int)
    ensures U32(x) == x % 0x1_0000_0000
    decreases if x < 0 then 0x1_0000_0000 - x else x
  {
    if x < 0 { U32IsModulo(x + 0x1_0000_0000); }
    if x >= 0x1_0000_0000 { U32IsModulo(x - 0x1_0000_0000); }
  }

  /** Conversion to `int`, as two's complement. */
  function I32(x: int): int { if U32(x) < 0x8000_0000 then U32(x) else U32(x) - 0x1_0000_0000 }

  /** The value of `int` that differs by whole turns of 2^32. */
  lemma I32IsWrapped(x: int)
    ensures -0x8000_0000 <= I32(x) < 0x8000_0000 && (x - I32(x)) % 0x1_0000_0000 == 0
  {
    U32IsModulo(x);
  }

  /** Conversion to `uint16_t`. */
  function U16(x: int): uint16 { x % 0x1_0000 }

  /** A byte as the signed `char` it is compared as. */
  function Signed(b: byte): int { if b >= 0x80 then b - 0x100 else b }

  function Min(a: int, b: int): int { if a < b then a else b }
}

/** `|` and `&` on naturals, bit by bit, and the two facts page-table entries rest on. */
module Bits {
  function Pow2(k: nat): (p: nat)
    ensures p > 0
  {
    if k == 0 then 1 else 2 * Pow2(k - 1)
  }

  /** a / 2 and a % 2 == 1, by steps of two. */
  function Half(a: nat): nat { if a < 2 then 0 else 1 + Half(a - 2) }

  predicate Odd(a: nat) { if a < 2 then a == 1 else Odd(a - 2) }

  lemma {:induction false} HalfAndOdd(a: nat)
    ensures Half(a) == a / 2 && (Odd(a) <==> a % 2 == 1)
    ensures a == 2 * Half(a) + (if Odd(a) then 1 else 0)
  {
    if a >= 2 { HalfAndOdd(a - 2); }
  }

  lemma HalfOf(a: nat, h: nat)
    requires a == 2 * h || a == 2 * h + 1
    ensures Half(a) == h && (Odd(a) <==> a == 2 * h + 1)
  {
    HalfAndOdd(a);
  }

  function Or(a: nat, b: nat): nat
    decreases a + b
  {
    HalfAndOdd(a);
    HalfAndOdd(b);
    if a == 0 && b == 0 then 0
    else 2 * Or(Half(a), Half(b)) + (if Odd(a) || Odd(b) then 1 else 0)
  }

  function And(a: nat, b: nat): nat
    decreases a
  {
    HalfAndOdd(a);
    if a == 0 then 0
    else 2 * And(Half(a), Half(b)) + (if Odd(a) && Odd(b) then 1 else 0)
  }

  // ---- the operators by their bits ----

  /** Bit k of n. */
  predicate Bit(n: nat, k: nat) { n / Pow2(k) % 2 == 1 }

  lemma Pow2Values()
    ensures Pow2(0) == 1 && Pow2(1) == 2 && Pow2(8) == 0x100 && Pow2(12) == 0x1000
  {
    assert Pow2(4) == 16;
    assert Pow2(8) == 256;
  }

  lemma Bit0(n: nat)
    ensures Bit(n, 0) <==> n % 2 == 1
  {
  }

  lemma HalfBit(n: nat, k: nat)
    requires k > 0
    ensures Bit(n, k) <==> Bit(n / 2, k - 1)
  {
    DivideTwice(n, Pow2(k - 1));
  }

  lemma DivideTwice(n: nat, p: nat)
    requires p > 0
    ensures n / (2 * p) == n / 2 / p
  {
    var q, r := n / 2 / p, n / 2 % p;
    assert n / 2 == q * p + r;
    assert q * (2 * p) == 2 * (q * p);
    SameQuotient(n, 2 * p, q, 2 * r + n % 2);
  }

  lemma SameQuotient(n: nat, d: nat, q: nat, r: nat)
    requires n == q * d + r && r < d
    ensures n / d == q
  {
    var q', r' := n / d, n % d;
    assert n == q' * d + r';
    Ordered(q + 1, q', d);
    Ordered(q' + 1, q, d);
  }

  lemma Ordered(a: nat, b: nat, k: nat)
    ensures a <= b ==> a * k <= b * k
  {
  }

  lemma OrHalves(a: nat, b: nat)
    ensures Or(a, b) / 2 == Or(a / 2, b / 2) && (Or(a, b) % 2 == 1 <==> a % 2 == 1 || b % 2 == 1)
  {
    HalfAndOdd(a);
    HalfAndOdd(b);
  }

  lemma AndHalves(a: nat, b: nat)
    ensures And(a, b) / 2 == And(a / 2, b / 2) && (And(a, b) % 2 == 1 <==> a % 2 == 1 && b % 2 == 1)
  {
    HalfAndOdd(a);
    HalfAndOdd(b);
  }

  /** A bit of the or is set exactly when it is set in one of the two. */
  lemma {:induction false} OrBits(a: nat, b: nat, k: nat)
    ensures Bit(Or(a, b), k) <==> Bit(a, k) || Bit(b, k)
    decreases k
  {
    OrHalves(a, b);
    if k == 0 {
      Bit0(a);
      Bit0(b);
      Bit0(Or(a, b));
    } else {
      HalfBit(a, k);
      HalfBit(b, k);
      HalfBit(Or(a, b), k);
      OrBits(a / 2, b / 2, k - 1);
    }
  }

  /** A bit of the and is set exactly when it is set in both. */
  lemma {:induction false} AndBits(a: nat, b: nat, k: nat)
    ensures Bit(And(a, b), k) <==> Bit(a, k) && Bit(b, k)
    decreases k
  {
    AndHalves(a, b);
    if k == 0 {
      Bit0(a);
      Bit0(b);
      Bit0(And(a, b));
    } else {
      HalfBit(a, k);
      HalfBit(b, k);
      HalfBit(And(a, b), k);
      AndBits(a / 2, b / 2, k - 1);
    }
  }

  /** Bits below bit n come from what is added there. */
  lemma {:induction false} LowBit(m: nat, x: nat, n: nat, k: nat)
    requires k < n
    ensures Bit(m * Pow2(n) + x, k) <==> Bit(x, k)
    decreases k
  {
    DoubleProduct(m, Pow2(n - 1));
    DoubledBit(m * Pow2(n - 1), x, k);
    if k > 0 {
      HalfBit(x, k);
      LowBit(m, x / 2, n - 1, k - 1);
    } else {
      Bit0(x);
    }
  }

  lemma DoubledBit(t: nat, x: nat, k: nat)
    ensures k == 0 ==> (Bit(2 * t + x, 0) <==> x % 2 == 1)
    ensures k > 0 ==> (Bit(2 * t + x, k) <==> Bit(t + x / 2, k - 1))
  {
    if k == 0 {
      Bit0(2 * t + x);
    } else {
      HalfBit(2 * t + x, k);
      assert (2 * t + x) / 2 == t + x / 2;
    }
  }

  /** Bits from bit n on come from the part above. */
  lemma {:induction false} HighBit(m: nat, x: nat, n: nat, k: nat)
    requires x < Pow2(n)
    ensures Bit(m * Pow2(n) + x, n + k) <==> Bit(m, k)
    decreases n
  {
    if n > 0 {
      DoubleProduct(m, Pow2(n - 1));
      DoubledBit(m * Pow2(n - 1), x, n + k);
      HighBit(m, x / 2, n - 1, k);
    }
  }

  lemma {:induction false} ZeroBit(k: nat)
    ensures !Bit(0, k)
  {
    if k > 0 {
      HalfBit(0, k);
      ZeroBit(k - 1);
    }
  }

  lemma BitOfTwo(k: nat)
    ensures Bit(2, k) <==> k == 1
  {
    if k == 0 {
      Bit0(2);
    } else {
      HalfBit(2, k);
      if k == 1 {
        Bit0(1);
      } else {
        HalfBit(1, k - 1);
        ZeroBit(k - 2);
      }
    }
  }

  lemma {:induction false} OrZero(a: nat)
    ensures Or(a, 0) == a == Or(0, a)
  {
    HalfAndOdd(a);
    if a > 0 { OrZero(Half(a)); }
  }

  /** Bits or-ed in below bit k leave the part above bit k alone. */
  lemma {:induction false} OrBelow(m: nat, f: nat, g: nat, k: nat)
    requires f < Pow2(k) && g < Pow2(k)
    ensures Or(m * Pow2(k) + f, g) == m * Pow2(k) + Or(f, g)
    ensures Or(f, g) < Pow2(k)
    decreases k
  {
    if k == 0 {
      OrZero(m);
    } else {
      var p := Pow2(k - 1);
      HalfBelow(f, p);
      HalfBelow(g, p);
      OrBelow(m, Half(f), Half(g), k - 1);
      OrBelowDouble(m * p, f, g, p);
      DoubleProduct(m, p);
    }
  }

  lemma OrBelowDouble(t: nat, f: nat, g: nat, p: nat)
    requires Or(t + Half(f), Half(g)) == t + Or(Half(f), Half(g)) && Or(Half(f), Half(g)) < p
    ensures Or(2 * t + f, g) == 2 * t + Or(f, g) && Or(f, g) < 2 * p
  {
    OrDouble(t, f, g);
    OrStaysBelow(f, g, p);
  }

  lemma HalfBelow(f: nat, p: nat)
    requires f < 2 * p
    ensures Half(f) < p
  {
    HalfAndOdd(f);
  }

  lemma OrStaysBelow(f: nat, g: nat, p: nat)
    requires Or(Half(f), Half(g)) < p
    ensures Or(f, g) < 2 * p
  {
  }

  lemma OrDouble(t: nat, f: nat, g: nat)
    requires Or(t + Half(f), Half(g)) == t + Or(Half(f), Half(g))
    ensures Or(2 * t + f, g) == 2 * t + Or(f, g)
  {
    HalfAndOdd(f);
    HalfOf(2 * t + f, t + Half(f));
    if 2 * t + f == 0 && g == 0 { OrZero(0); }
  }

  lemma {:induction false} AndOnes(m: nat, n: nat)
    requires m < Pow2(n)
    ensures And(m, Pow2(n) - 1) == m
  {
    if n > 0 && m > 0 {
      HalfAndOdd(m);
      HalfOf(Pow2(n) - 1, Pow2(n - 1) - 1);
      AndOnes(Half(m), n - 1);
    }
  }

  lemma DoubleProduct(m: nat, p: nat)
    ensures m * (2 * p) == 2 * (m * p)
  {
  }

  lemma AndDouble(t: nat, f: nat, mask: nat)
    ensures And(2 * t + f, 2 * mask) == 2 * And(t + Half(f), mask)
  {
    HalfAndOdd(f);
    HalfOf(2 * t + f, t + Half(f));
    HalfOf(2 * mask, mask);
  }

  /** A mask of n ones above k zeros keeps exactly the part above bit k. */
  lemma {:induction false} AndMask(m: nat, f: nat, n: nat, k: nat)
    requires m < Pow2(n) && f < Pow2(k)
    ensures And(m * Pow2(k) + f, (Pow2(n) - 1) * Pow2(k)) == m * Pow2(k)
    decreases k
  {
    if k == 0 {
      AndOnes(m, n);
    } else {
      HalfAndOdd(f);
      AndMask(m, Half(f), n, k - 1);
      DoubleProduct(m, Pow2(k - 1));
      DoubleProduct(Pow2(n) - 1, Pow2(k - 1));
      AndDouble(m * Pow2(k - 1), f, (Pow2(n) - 1) * Pow2(k - 1));
    }
  }

  lemma OrBit0(a: nat, b: nat)
    ensures Odd(Or(a, b)) <==> Odd(a) || Odd(b)
  {
    HalfOf(Or(a, b), Or(Half(a), Half(b)));
  }
}
