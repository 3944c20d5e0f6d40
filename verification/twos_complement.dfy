/** Two's-complement words of `w` bits over unbounded integers, and the bitwise `&`
    the integer utilities of the library are written with. */
module TwosComplement {
  import NonLinear

  /** `2^k`. */
  function Pow2(k: nat): (r: int)
    ensures r >= 1
  {
    if k == 0 then 1 else 2 * Pow2(k - 1)
  }

  /** The values a signed `w`-bit word holds: `[-2^(w-1), 2^(w-1))`. */
  predicate InWord(n: int, w: nat)
    requires w >= 1
  {
    -Pow2(w - 1) <= n < Pow2(w - 1)
  }

  /** The bit pattern of `n` as an unsigned `w`-bit number; `n` may be one below
      the word's range, as `n - 1` is for the most negative word, and then wraps. */
  function Enc(n: int, w: nat): (r: nat)
    requires -Pow2(w) <= n < Pow2(w)
    ensures r < Pow2(w)
    ensures r == n || r == n + Pow2(w)
  {
    if n >= 0 then n else n + Pow2(w)
  }

  /** Bitwise `&` of two bit patterns. */
  function BitAnd(a: nat, b: nat): (r: nat)
    ensures r <= a && r <= b
    decreases a
  {
    if a == 0 || b == 0 then 0
    else 2 * BitAnd(a / 2, b / 2) + (if a % 2 == 1 && b % 2 == 1 then 1 else 0)
  }

  /** A positive power of two: 1, 2, 4, ... */
  ghost predicate IsPowerOfTwo(n: int)
    decreases if n < 0 then 0 else n
  {
    n == 1 || (n > 1 && n % 2 == 0 && IsPowerOfTwo(n / 2))
  }

  /** `x & 1` is the low bit of `x`. */
  lemma AndOne(a: nat)
    ensures BitAnd(a, 1) == a % 2
  {
  }

  lemma {:induction false} AndSelf(a: nat)
    ensures BitAnd(a, a) == a
    decreases a
  {
    if a > 0 {
      AndSelf(a / 2);
    }
  }

  /** `m & (m-1)` clears the lowest set bit, so it is zero exactly for powers of two. */
  lemma {:induction false} AndPredecessor(m: nat)
    requires m >= 1
    ensures BitAnd(m, m - 1) == 0 <==> IsPowerOfTwo(m)
    decreases m
  {
    if m > 1 {
      if m % 2 == 1 {
        assert (m - 1) / 2 == m / 2;
        AndSelf(m / 2);
        assert BitAnd(m, m - 1) == 2 * (m / 2);
      } else {
        assert (m - 1) / 2 == m / 2 - 1;
        AndPredecessor(m / 2);
        assert BitAnd(m, m - 1) == 2 * BitAnd(m / 2, m / 2 - 1);
      }
    }
  }

  lemma NotPowerOfTwoNegative(n: int)
    requires n <= 0
    ensures !IsPowerOfTwo(n)
  {
  }

  lemma {:induction false} PowerOfTwoPow2(k: nat)
    ensures IsPowerOfTwo(Pow2(k))
    decreases k
  {
    if k > 0 {
      PowerOfTwoPow2(k - 1);
      assert Pow2(k) / 2 == Pow2(k - 1);
    }
  }

  /** The only power of two in `[2^k, 2^(k+1))` is `2^k`. */
  lemma {:induction false} PowerOfTwoInTopRange(m: int, k: nat)
    requires IsPowerOfTwo(m) && Pow2(k) <= m < Pow2(k + 1)
    ensures m == Pow2(k)
    decreases k
  {
    if k > 0 {
      assert m != 1 && m % 2 == 0;
      PowerOfTwoInTopRange(m / 2, k - 1);
    }
  }

  /** The bit pattern of `n` has the parity of `n`. */
  lemma EncParity(n: int, w: nat)
    requires w >= 1 && -Pow2(w) <= n < Pow2(w)
    ensures Enc(n, w) % 2 == n % 2
  {
    if n < 0 {
      var h := Pow2(w - 1);
      assert Enc(n, w) == n + h * 2;
      NonLinear.ModShift(n, h, 2);
    }
  }

  lemma {:induction false} Pow2Add(a: nat, b: nat)
    ensures Pow2(a + b) == Pow2(a) * Pow2(b)
    decreases a
  {
    if a > 0 {
      Pow2Add(a - 1, b);
      assert Pow2(a + b) == 2 * Pow2(a - 1 + b);
    }
  }

  lemma Pow2Of8()
    ensures Pow2(8) == 0x100
  {
    assert Pow2(4) == 16;
    Pow2Add(4, 4);
  }

  lemma Pow2Of32()
    ensures Pow2(32) == 0x1_0000_0000
  {
    Pow2Of8();
    Pow2Add(8, 8);
    Pow2Add(16, 16);
  }

  /** The word sizes of the library: 32-bit `Int` and 64-bit `Long`. */
  lemma Pow2Values()
    ensures Pow2(31) == 0x8000_0000 && Pow2(32) == 0x1_0000_0000
    ensures Pow2(63) == 0x8000_0000_0000_0000 && Pow2(64) == 0x1_0000_0000_0000_0000
  {
    Pow2Of32();
    assert Pow2(32) == 2 * Pow2(31);
    Pow2Add(32, 31);
    Pow2Add(32, 32);
  }
}
