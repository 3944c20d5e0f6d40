/** Scalar utilities of SLISC/scalar_arith.h (duplicated in SLISC/arithmetic.h:10-27).
    Integers are the 64-bit `Long` of the library; `Doub` is modelled by `real`. */
module ScalarArith {

  import opened NonLinear
  import opened TwosComplement

  const LONG_MIN: int := -0x8000_0000_0000_0000
  const LONG_MAX: int := 0x7FFF_FFFF_FFFF_FFFF
  const TWO_64: int := 0x1_0000_0000_0000_0000

  predicate InLong(n: int) { LONG_MIN <= n <= LONG_MAX }

  // ---------------------------------------------------------------------------
  // MIN, MAX, SQR, ABS2

  /** `a < b ? a : b`: on a tie the second argument is returned. */
  function Min(a: int, b: int): (r: int)
    ensures r <= a && r <= b
    ensures r == a || r == b
  {
    if a < b then a else b
  }

  /** `a < b ? b : a`: on a tie the first argument is returned. */
  function Max(a: int, b: int): (r: int)
    ensures r >= a && r >= b
    ensures r == a || r == b
  {
    if a < b then b else a
  }

  function Sqr(a: int): (r: int)
    ensures r >= 0
    ensures r == 0 <==> a == 0
  {
    SquareNonNegative(a);
    a * a
  }

  lemma SquareNonNegative(a: int)
    ensures a * a >= 0
    ensures a * a == 0 <==> a == 0
  {
    if a < 0 {
      assert a * a == (-a) * (-a);
    }
  }

  /** ABS2 on an arithmetic type is the square of its argument. */
  function Abs2(a: int): (r: int)
    ensures r == Sqr(a) && r >= 0
  {
    a * a
  }

  // ---------------------------------------------------------------------------
  // SIGN

  function AbsReal(x: real): real { if x < 0.0 then -x else x }

  /** One-argument SIGN: 1, -1 or 0 by the sign of `s`. */
  function Sign1(s: real): (r: real)
    ensures r == 1.0 || r == -1.0 || r == 0.0
    ensures r * s == AbsReal(s)
    ensures r == 0.0 <==> s == 0.0
  {
    if s > 0.0 then 1.0 else if s < 0.0 then -1.0 else 0.0
  }

  /** Two-argument SIGN: the magnitude of `a` with the sign of `b` (zero counts as positive). */
  function Sign(a: real, b: real): (r: real)
    ensures 0.0 <= b ==> r == AbsReal(a)
    ensures b < 0.0 ==> r == -AbsReal(a)
    ensures AbsReal(r) == AbsReal(a)
  {
    if 0.0 <= b then (if 0.0 <= a then a else -a) else (if 0.0 <= a then -a else a)
  }

  // ---------------------------------------------------------------------------
  // is_equiv and to_num over the library's scalar types

  /** A scalar together with its static type. Char is signed 8-bit, Uchar unsigned 8-bit. */
  datatype Scalar =
    | BoolV(b: bool)
    | CharV(c: int)
    | UcharV(u: int)
    | IntV(i: int)
    | LongV(l: int)
    | DoubV(d: real)

  predicate SameType(s1: Scalar, s2: Scalar)
  {
    match s1
    case BoolV(_) => s2.BoolV?
    case CharV(_) => s2.CharV?
    case UcharV(_) => s2.UcharV?
    case IntV(_) => s2.IntV?
    case LongV(_) => s2.LongV?
    case DoubV(_) => s2.DoubV?
  }

  /** The numeric value C++ arithmetic sees (bool promotes to 0 or 1). */
  function Value(s: Scalar): real
  {
    match s
    case BoolV(b) => if b then 1.0 else 0.0
    case CharV(c) => c as real
    case UcharV(u) => u as real
    case IntV(i) => i as real
    case LongV(l) => l as real
    case DoubV(d) => d
  }

  /** `s1 == s2` between two scalars of possibly different types, after the usual promotion. */
  predicate NumEqual(s1: Scalar, s2: Scalar) { Value(s1) == Value(s2) }

  /** is_equiv: false when the types differ, the comparison `s1 == s2` otherwise. */
  predicate IsEquiv(s1: Scalar, s2: Scalar)
  {
    SameType(s1, s2) && NumEqual(s1, s2)
  }

  /** is_equiv holds exactly when the two typed scalars are identical. */
  lemma IsEquivIsIdentity(s1: Scalar, s2: Scalar)
    ensures IsEquiv(s1, s2) <==> s1 == s2
  {
    if IsEquiv(s1, s2) {
      match s1
      case BoolV(b) =>
        assert s2.BoolV?;
        assert (if b then 1.0 else 0.0) == (if s2.b then 1.0 else 0.0);
      case CharV(_) =>
      case UcharV(_) =>
      case IntV(_) =>
      case LongV(_) =>
      case DoubV(_) =>
    }
  }

  /** Values that compare equal under `==` need not be equivalent. */
  lemma EqualButNotEquiv()
    ensures NumEqual(IntV(1), DoubV(1.0)) && !IsEquiv(IntV(1), DoubV(1.0))
  {
  }

  /** to_num: Bool, Char and Uchar become Int; every other scalar is returned as it is. */
  function ToNum(x: Scalar): (r: Scalar)
    ensures !r.BoolV? && !r.CharV? && !r.UcharV?
    ensures Value(r) == Value(x)
    ensures (x.IntV? || x.LongV? || x.DoubV?) ==> r == x
    ensures (x.BoolV? || x.CharV? || x.UcharV?) ==> r.IntV?
  {
    match x
    case BoolV(b) => IntV(if b then 1 else 0)
    case CharV(c) => IntV(c)
    case UcharV(u) => IntV(u)
    case _ => x
  }

  lemma ToNumIdempotent(x: Scalar)
    ensures ToNum(ToNum(x)) == ToNum(x)
  {
  }

  // ---------------------------------------------------------------------------
  // C++ integer division: truncation toward zero

  function Abs(x: int): nat { if x < 0 then -x else x }

  /** C++ `a % b`: the remainder takes the sign of the dividend. */
  function CRem(a: int, b: int): (r: int)
    requires b != 0
    ensures Abs(r) < Abs(b)
    ensures a >= 0 ==> r >= 0
    ensures a < 0 ==> r <= 0
    ensures (a - r) % Abs(b) == 0
  {
    var m := Abs(b);
    if a >= 0 then
      MulModZero(a / m, m);
      assert a - a % m == (a / m) * m;
      a % m
    else
      MulModZero(-((-a) / m), m);
      assert a + (-a) % m == -((-a) / m) * m;
      -((-a) % m)
  }

  /** C++ `a / b`: the quotient is truncated toward zero. */
  function CDiv(a: int, b: int): (q: int)
    requires b != 0
    ensures q * b + CRem(a, b) == a
  {
    var m := Abs(b);
    var qa := if a >= 0 then a / m else -((-a) / m);
    assert qa * m + CRem(a, b) == a;
    if b > 0 then qa else
      assert (-qa) * b == qa * m;
      -qa
  }

  // ---------------------------------------------------------------------------
  // mod: the positive modulus built from two truncating remainders

  /** `(i % n + n) % n` with C++ `%`, computed without overflow (see the Findings). */
  function Mod(i: int, n: int): (r: int)
    requires n != 0
  {
    CRem(CRem(i, n) + n, n)
  }

  /** For a positive modulus, mod agrees with the mathematical (Euclidean) remainder. */
  lemma ModPositive(i: int, n: int)
    requires n > 0
    ensures 0 <= Mod(i, n) < n
    ensures Mod(i, n) == i % n
    ensures i >= 0 ==> Mod(i, n) == CRem(i, n)
  {
    var t := CRem(i, n);
    var r := CRem(t + n, n);
    assert 0 < t + n;
    assert r == (t + n) % n;
    var q1 := (i - t) / n;
    assert i - t == q1 * n by { SlotOfOnStride(i - t, n); }
    var q2 := (t + n) / n;
    assert t + n == q2 * n + r;
    assert i == (q1 + q2 - 1) * n + r;
    DivModUnique(i, q1 + q2 - 1, r, n);
    if i >= 0 {
      DivModUnique(t + n, 1, t, n);
    }
  }

  /** For a negative modulus the result lies in `(n, 0]`. */
  lemma ModNegative(i: int, n: int)
    requires n < 0
    ensures n < Mod(i, n) <= 0
  {
  }

  /** The signed `w`-bit word a wrapping machine stores for `x`. */
  function Wrap(x: int, w: nat): (r: int)
    requires w >= 1
    ensures InWord(r, w)
    ensures (x - r) % Pow2(w) == 0
  {
    var p := Pow2(w);
    assert p == 2 * Pow2(w - 1);
    var m := x % p;
    if m >= Pow2(w - 1) then
      assert x - (m - p) == (x / p + 1) * p;
      MulModZero(x / p + 1, p);
      m - p
    else
      assert x - m == (x / p) * p;
      MulModZero(x / p, p);
      m
  }

  /** A value already inside the word is stored unchanged. */
  lemma WrapInWord(x: int, w: nat)
    requires w >= 1 && InWord(x, w)
    ensures Wrap(x, w) == x
  {
    var p := Pow2(w);
    assert p == 2 * Pow2(w - 1);
    if x >= 0 {
      DivModUnique(x, 0, x, p);
    } else {
      DivModUnique(x, -1, x + p, p);
    }
  }

  /** mod on `w`-bit words exactly as written: the sum `i % n + n` is stored in a word
      of the same width. When it exceeds the largest word the C++ behaviour is undefined;
      this is what a wrapping (two's complement) machine stores. */
  function ModAsWritten(i: int, n: int, w: nat): int
    requires w >= 1 && n != 0
  {
    CRem(Wrap(CRem(i, n) + n, w), n)
  }

  /** Whenever the sum fits in the word, the code as written computes Mod. */
  lemma ModAsWrittenAgrees(i: int, n: int, w: nat)
    requires w >= 1 && n != 0 && InWord(CRem(i, n) + n, w)
    ensures ModAsWritten(i, n, w) == Mod(i, n)
  {
    WrapInWord(CRem(i, n) + n, w);
  }

  /** For `Long`, `mod(LONG_MAX - 1, LONG_MAX)` overflows in the sum, which is undefined
      behaviour; under wrap-around it returns -3 instead of the positive modulus
      `LONG_MAX - 1`. */
  lemma ModAsWrittenOverflows()
    ensures ModAsWritten(LONG_MAX - 1, LONG_MAX, 64) == -3
    ensures Mod(LONG_MAX - 1, LONG_MAX) == LONG_MAX - 1
  {
    Pow2Values();
    var t := CRem(LONG_MAX - 1, LONG_MAX);
    assert t == LONG_MAX - 1;
    var s := t + LONG_MAX;
    assert s - (-3) == Pow2(64);
    WrapOfExcess(s, 64);
    assert Wrap(s, 64) == -3;
    assert CRem(-3, LONG_MAX) == -3;
    ModPositive(LONG_MAX - 1, LONG_MAX);
    DivModUnique(LONG_MAX - 1, 0, LONG_MAX - 1, LONG_MAX);
  }

  /** A value one word-span above the word's range is stored as that value minus `2^w`. */
  lemma WrapOfExcess(x: int, w: nat)
    requires w >= 1 && InWord(x - Pow2(w), w)
    ensures Wrap(x, w) == x - Pow2(w)
  {
    var p := Pow2(w);
    assert p == 2 * Pow2(w - 1);
    if x >= p {
      DivModUnique(x, 1, x - p, p);
    } else {
      DivModUnique(x, 0, x, p);
    }
  }

  // ---------------------------------------------------------------------------
  // isodd and ispow2 on a signed word of w bits (w = 32 for Int, 64 for Long)

  /** isodd: `n & 1`. */
  function IsOdd(n: int, w: nat): bool
    requires w >= 1 && InWord(n, w)
  {
    BitAnd(Enc(n, w), 1) != 0
  }

  /** isodd holds exactly for the odd integers, negative ones included. */
  lemma IsOddSpec(n: int, w: nat)
    requires w >= 1 && InWord(n, w)
    ensures IsOdd(n, w) <==> n % 2 == 1
  {
    AndOne(Enc(n, w));
    EncParity(n, w);
  }

  /** ispow2: `(n & (n-1)) == 0`. For the most negative word `n - 1` overflows, which is
      undefined behaviour in C++; the model takes the wrapped value. */
  function IsPow2(n: int, w: nat): bool
    requires w >= 1 && InWord(n, w)
  {
    BitAnd(Enc(n, w), Enc(n - 1, w)) == 0
  }

  /** ispow2 holds for 0 and the powers of two, as documented, and also for the most
      negative word, whose pattern is a single set bit. */
  lemma IsPow2Spec(n: int, w: nat)
    requires w >= 1 && InWord(n, w)
    ensures IsPow2(n, w) <==> n == 0 || n == -Pow2(w - 1) || IsPowerOfTwo(n)
    ensures n >= 0 ==> (IsPow2(n, w) <==> n == 0 || IsPowerOfTwo(n))
  {
    assert Pow2(w) == 2 * Pow2(w - 1);
    if n > 0 {
      AndPredecessor(n);
    } else if n < 0 {
      var m := n + Pow2(w);
      assert Enc(n, w) == m && Enc(n - 1, w) == m - 1;
      AndPredecessor(m);
      NotPowerOfTwoNegative(n);
      if IsPowerOfTwo(m) {
        PowerOfTwoInTopRange(m, w - 1);
      }
      if n == -Pow2(w - 1) {
        PowerOfTwoPow2(w - 1);
      }
    }
  }

  /** For `Long`, the exception is LONG_MIN. */
  lemma IsPow2Long(n: int)
    requires InLong(n)
    ensures Pow2(63) == -LONG_MIN && InWord(n, 64)
    ensures IsPow2(n, 64) <==> n == 0 || n == LONG_MIN || IsPowerOfTwo(n)
  {
    Pow2Values();
    IsPow2Spec(n, 64);
  }

  // ---------------------------------------------------------------------------
  // csub2ind / rsub2ind

  /** Column-major linear index of `(i, j)` in a matrix with `Nr` rows. */
  function CSub2Ind(Nr: int, i: int, j: int): int { i + Nr * j }

  /** Row-major linear index of `(i, j)` in a matrix with `Nc` columns. */
  function RSub2Ind(Nc: int, i: int, j: int): int { Nc * i + j }

  /** Element `(i, j)` of a row-major buffer with rows of length `Nc` (zero off the buffer). */
  function Entry(s: seq<int>, Nc: nat, i: int, j: int): int
  {
    if 0 <= RSub2Ind(Nc, i, j) < |s| then s[RSub2Ind(Nc, i, j)] else 0
  }

  /** Two `Nr` by `Nc` buffers with the same elements are the same buffer. */
  lemma EqualByEntries(t: seq<int>, u: seq<int>, Nr: nat, Nc: nat)
    requires |t| == Nr * Nc && |u| == Nr * Nc
    requires forall i, j :: 0 <= i < Nr && 0 <= j < Nc ==> Entry(t, Nc, i, j) == Entry(u, Nc, i, j)
    ensures t == u
  {
    forall k | 0 <= k < |t|
      ensures t[k] == u[k]
    {
      RSub2IndOnto(Nr, Nc, k);
      assert Entry(t, Nc, k / Nc, k % Nc) == Entry(u, Nc, k / Nc, k % Nc);
    }
  }

  /** csub2ind maps `[0,Nr) x [0,Nc)` into `[0, Nr*Nc)`, and the pair is recovered from the index. */
  lemma CSub2IndBijective(Nr: int, Nc: int, i: int, j: int)
    requires 0 <= i < Nr && 0 <= j < Nc
    ensures 0 <= CSub2Ind(Nr, i, j) < Nr * Nc
    ensures CSub2Ind(Nr, i, j) % Nr == i && CSub2Ind(Nr, i, j) / Nr == j
  {
    LinearBelow(Nr, Nc, i, j);
    LinearSplit(Nr, i, j);
  }

  /** Every index of `[0, Nr*Nc)` is the csub2ind of the pair its remainder and quotient give. */
  lemma CSub2IndOnto(Nr: int, Nc: int, k: int)
    requires 0 <= k < Nr * Nc && Nr >= 0 && Nc >= 0
    ensures Nr > 0 && 0 <= k % Nr < Nr && 0 <= k / Nr < Nc
    ensures CSub2Ind(Nr, k % Nr, k / Nr) == k
  {
    ProductPositive(Nr, Nc);
    QuotientBelow(k, Nr, Nc);
  }

  /** rsub2ind maps `[0,Nr) x [0,Nc)` into `[0, Nr*Nc)`, and the pair is recovered from the index. */
  lemma RSub2IndBijective(Nr: int, Nc: int, i: int, j: int)
    requires 0 <= i < Nr && 0 <= j < Nc
    ensures 0 <= RSub2Ind(Nc, i, j) < Nr * Nc
    ensures RSub2Ind(Nc, i, j) / Nc == i && RSub2Ind(Nc, i, j) % Nc == j
  {
    LinearBelow(Nc, Nr, j, i);
    LinearSplit(Nc, j, i);
    MulComm(Nc, Nr);
  }

  /** Every index of `[0, Nr*Nc)` is the rsub2ind of the pair its quotient and remainder give. */
  lemma RSub2IndOnto(Nr: int, Nc: int, k: int)
    requires 0 <= k < Nr * Nc && Nr >= 0 && Nc >= 0
    ensures Nc > 0 && 0 <= k / Nc < Nr && 0 <= k % Nc < Nc
    ensures RSub2Ind(Nc, k / Nc, k % Nc) == k
  {
    MulComm(Nr, Nc);
    ProductPositive(Nr, Nc);
    QuotientBelow(k, Nc, Nr);
  }
}
