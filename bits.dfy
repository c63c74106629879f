/** Unsigned machine arithmetic stated over natural numbers: word sizes,
    powers of two and C's bitwise AND (`&`) on unsigned operands. */
module Bits {

  /** 2^32: one past the largest `uint32_t`. */
  const U32_LIMIT: nat := 0x1_0000_0000

  /** Unsigned 32- and 64-bit words (`uint32_t`, `uintptr_t`/`size_t`). */
  type u32 = x: nat | x < 0x1_0000_0000
  type u64 = x: nat | x < 0x1_0000_0000_0000_0000

  function Pow2(e: nat): (p: nat)
    ensures p >= 1
  {
    if e == 0 then 1 else 2 * Pow2(e - 1)
  }

  /** C's `a & b` on unsigned operands, bit by bit from the least significant one. */
  function And(a: nat, b: nat): (r: nat)
    ensures r <= a && r <= b
    decreases a
  {
    if a == 0 || b == 0 then 0
    else 2 * And(a / 2, b / 2) + (if a % 2 == 1 && b % 2 == 1 then 1 else 0)
  }

  /** `is_power_of_two` (src/clht_lb_res_no_next.c:21-25): `x != 0 && !(x & (x - 1))`.
      It holds for 1 and, above 1, only for even numbers whose half shares no
      bit with its own predecessor. */
  predicate IsPowerOfTwo(x: nat)
    ensures IsPowerOfTwo(x) <==> x == 1 || (x > 1 && x % 2 == 0 && And(x / 2, x / 2 - 1) == 0)
  {
    AndPredHalf(x);
    x != 0 && And(x, x - 1) == 0
  }

  /** Above 1, `x & (x - 1)` is 0 exactly for an even `x` whose half shares no
      bit with its own predecessor; an odd `x` keeps all of `x - 1`. */
  lemma AndPredHalf(x: nat)
    ensures x > 1 ==> (And(x, x - 1) == 0 <==> x % 2 == 0 && And(x / 2, x / 2 - 1) == 0)
  {
    if x > 1 {
      if x % 2 == 1 {
        assert (x - 1) / 2 == x / 2;
        AndSelf(x / 2);
      } else {
        assert (x - 1) / 2 == x / 2 - 1;
      }
    }
  }

  /** `x` has exactly one bit set among the 32 bits of an `unsigned int`. */
  ghost predicate SingleBit(x: nat) {
    exists i: nat :: i < 32 && x == Pow2(i)
  }

  lemma {:induction false} Pow2Add(a: nat, b: nat)
    ensures Pow2(a) * Pow2(b) == Pow2(a + b)
    decreases a
  {
    if a > 0 {
      Pow2Add(a - 1, b);
      MulDouble(Pow2(a - 1), Pow2(b));
    }
  }

  lemma MulDouble(x: nat, y: nat)
    ensures (2 * x) * y == 2 * (x * y)
  {
  }

  lemma {:induction false} Pow2Strict(a: nat, b: nat)
    requires a < b
    ensures Pow2(a) < Pow2(b)
    decreases b
  {
    if a < b - 1 {
      Pow2Strict(a, b - 1);
    }
  }

  lemma {:induction false} AndSelf(y: nat)
    ensures And(y, y) == y
    decreases y
  {
    if y > 0 {
      AndSelf(y / 2);
    }
  }

  lemma {:induction false} AndComm(a: nat, b: nat)
    ensures And(a, b) == And(b, a)
    decreases a
  {
    if a > 0 && b > 0 {
      AndComm(a / 2, b / 2);
    }
  }

  lemma {:induction false} AndAssoc(a: nat, b: nat, c: nat)
    ensures And(And(a, b), c) == And(a, And(b, c))
    decreases a
  {
    if a > 0 && b > 0 && c > 0 {
      AndAssoc(a / 2, b / 2, c / 2);
      var ab := And(a, b);
      var bc := And(b, c);
      assert ab / 2 == And(a / 2, b / 2);
      assert bc / 2 == And(b / 2, c / 2);
    }
  }

  /** A power of two shares no bit with its predecessor. */
  lemma {:induction false} AndPow2Pred(i: nat)
    ensures And(Pow2(i), Pow2(i) - 1) == 0
    decreases i
  {
    if i > 0 {
      AndPow2Pred(i - 1);
      assert Pow2(i) / 2 == Pow2(i - 1);
      assert (Pow2(i) - 1) / 2 == Pow2(i - 1) - 1;
    }
  }

  /** A nonzero `x` with `x & (x - 1) == 0` is some power of two. */
  lemma {:induction false} ExponentOf(x: nat) returns (i: nat)
    requires IsPowerOfTwo(x)
    ensures x == Pow2(i)
    decreases x
  {
    if x == 1 {
      i := 0;
    } else {
      var j := ExponentOf(x / 2);
      i := j + 1;
    }
  }

  /** `is_power_of_two(x)` holds exactly when the 32-bit `x` has a single set bit. */
  lemma PowerOfTwoIff(x: u32)
    ensures IsPowerOfTwo(x) <==> SingleBit(x)
  {
    if IsPowerOfTwo(x) {
      var i := ExponentOf(x);
      Pow2Value32();
      if i > 32 {
        Pow2Strict(32, i);
      }
      assert i < 32 && x == Pow2(i);
    }
    if SingleBit(x) {
      var i: nat :| i < 32 && x == Pow2(i);
      AndPow2Pred(i);
    }
  }

  lemma Pow2Value32()
    ensures Pow2(32) == U32_LIMIT
  {
    assert Pow2(4) == 16;
    Pow2Add(4, 4);
    Pow2Add(8, 8);
    Pow2Add(16, 16);
  }

  /** Masking with `2^e - 1` keeps the remainder modulo `2^e`. */
  lemma {:induction false} AndMaskIsMod(k: nat, e: nat)
    ensures And(k, Pow2(e) - 1) == k % Pow2(e)
    decreases e
  {
    if e == 0 {
      assert Pow2(e) == 1;
      assert And(k, 0) == 0;
      ModUnique(k, 1, k, 0);
    } else if k == 0 {
      ModUnique(k, Pow2(e), 0, 0);
    } else {
      var m := Pow2(e - 1);
      var d := Pow2(e);
      var mask := d - 1;
      assert d == 2 * m;
      assert mask / 2 == m - 1 && mask % 2 == 1;
      var h := And(k / 2, m - 1);
      assert And(k, mask) == 2 * h + k % 2;
      AndMaskIsMod(k / 2, e - 1);
      assert h == (k / 2) % m;
      ModDouble(k, m, d);
      assert And(k, mask) == k % d;
    }
  }

  /** `k mod 2m` is assembled from `(k / 2) mod m` and the low bit of `k`. */
  lemma ModDouble(k: nat, m: nat, d: nat)
    requires m > 0 && d == 2 * m
    ensures k % d == 2 * ((k / 2) % m) + k % 2
  {
    var q, r := k / 2, k % 2;
    var t, s := q / m, q % m;
    assert k == d * t + (2 * s + r);
    ModUnique(k, d, t, 2 * s + r);
  }

  lemma ModUnique(k: nat, d: nat, t: nat, u: nat)
    requires 0 <= u < d && k == d * t + u
    ensures k % d == u
  {
    var q, r := k / d, k % d;
    assert d * (q - t) == u - r;
    if q > t {
      MulAtLeast(d, q - t);
    } else if q < t {
      MulAtLeast(d, t - q);
    }
  }

  lemma {:induction false} MulAtLeast(d: nat, x: nat)
    requires x >= 1
    ensures d * x >= d
    decreases x
  {
    if x > 1 {
      MulAtLeast(d, x - 1);
    }
  }

  /** A narrower power-of-two mask, ANDed with a wider one, is kept: the
      wider mask covers every bit of the narrower. */
  lemma {:induction false} MaskCover(a: nat, c: nat)
    requires a <= c
    ensures And(Pow2(a) - 1, Pow2(c) - 1) == Pow2(a) - 1
    decreases a
  {
    if a > 0 {
      MaskCover(a - 1, c - 1);
      assert Pow2(c) == 2 * Pow2(c - 1) && Pow2(a) == 2 * Pow2(a - 1);
      assert (Pow2(c) - 1) / 2 == Pow2(c - 1) - 1 && (Pow2(c) - 1) % 2 == 1;
      assert (Pow2(a) - 1) / 2 == Pow2(a - 1) - 1 && (Pow2(a) - 1) % 2 == 1;
    }
  }

  /** Multiplying a 32-bit power of two by a power-of-two factor of at least 2 and
      truncating to 32 bits gives 0 (the product wrapped) or a strictly larger
      32-bit power of two whose mask covers the old one. */
  lemma GrowthStep(n: nat, factor: nat)
    requires IsPowerOfTwo(n) && n < U32_LIMIT
    requires IsPowerOfTwo(factor) && factor >= 2
    ensures var m := (factor * n) % U32_LIMIT;
      m == 0 || (m == factor * n && n < m && IsPowerOfTwo(m) && And(n - 1, m - 1) == n - 1)
  {
    var a := ExponentOf(n);
    var b := ExponentOf(factor);
    Pow2Add(b, a);
    assert b > 0;
    GrowthPow(a, b);
  }

  /** `GrowthStep` on exponents: `2^(a+b)` truncated to 32 bits. */
  lemma GrowthPow(a: nat, b: nat)
    requires b > 0
    ensures var m := Pow2(a + b) % U32_LIMIT;
      m == 0 || (m == Pow2(a + b) && Pow2(a) < m && IsPowerOfTwo(m) && And(Pow2(a) - 1, m - 1) == Pow2(a) - 1)
  {
    if a + b >= 32 {
      ProductWraps(a + b);
    } else {
      Pow2Fits(a + b);
      Pow2Strict(a, a + b);
      AndPow2Pred(a + b);
      MaskCover(a, a + b);
    }
  }

  /** The mask of the grown count covers the old mask, unless the count wrapped to 0. */
  lemma GrowthCovers(n: nat, factor: nat)
    requires IsPowerOfTwo(n) && n < U32_LIMIT
    requires IsPowerOfTwo(factor) && factor >= 2
    ensures (factor * n) % U32_LIMIT != 0 ==> And((factor * n) % U32_LIMIT - 1, n - 1) == n - 1
  {
    GrowthStep(n, factor);
    var m := (factor * n) % U32_LIMIT;
    if m != 0 {
      AndComm(m - 1, n - 1);
    }
  }

  lemma ProductWraps(e: nat)
    requires e >= 32
    ensures Pow2(e) % U32_LIMIT == 0
  {
    Pow2Value32();
    Pow2Add(32, e - 32);
    ModUnique(Pow2(e), U32_LIMIT, Pow2(e - 32), 0);
  }

  /** A power of two below 2^32 is kept by the truncation to 32 bits. */
  lemma Pow2Fits(e: nat)
    requires e < 32
    ensures Pow2(e) % U32_LIMIT == Pow2(e)
  {
    Pow2Value32();
    Pow2Strict(e, 32);
    ModUnique(Pow2(e), U32_LIMIT, 0, Pow2(e));
  }
}
