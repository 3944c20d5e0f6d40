/** Facts about multiplication, division and remainder that the index arithmetic of
    the library (strides, leading dimensions, linear indices) relies on. */
module NonLinear {

  lemma MulMonotone(a: int, b: int, c: int)
    requires 0 <= a && b <= c
    ensures a * b <= a * c
  {
    assert a * c - a * b == a * (c - b);
  }

  lemma MulStrictMonotone(a: int, b: int, c: int)
    requires 0 < a && b < c
    ensures a * b < a * c
  {
    assert a * c - a * b == a * (c - b);
    MulMonotone(a, 1, c - b);
  }

  /** Quotient and remainder are unique. */
  lemma DivModUnique(k: int, q: int, r: int, m: int)
    requires m > 0 && 0 <= r < m && k == q * m + r
    ensures k / m == q && k % m == r
  {
    var q0 := k / m;
    var r0 := k % m;
    assert k == q0 * m + r0;
    assert (q0 - q) * m == r - r0;
    if q0 > q {
      MulMonotone(m, 1, q0 - q);
    } else if q0 < q {
      MulMonotone(m, 1, q - q0);
    }
  }

  lemma MulModZero(q: int, m: int)
    requires m > 0
    ensures (q * m) % m == 0 && (q * m) / m == q
  {
    DivModUnique(q * m, q, 0, m);
  }

  /** `r + m*q` with `r < m` and `q < n` lies below `m*n`. */
  lemma LinearBelow(m: int, n: int, r: int, q: int)
    requires 0 <= r < m && 0 <= q < n
    ensures 0 <= r + m * q < m * n
  {
    MulMonotone(m, q, n - 1);
    assert m * (n - 1) == m * n - m;
  }

  /** Splitting a linear index `r + m*q` back into `(r, q)`. */
  lemma LinearSplit(m: int, r: int, q: int)
    requires 0 <= r < m
    ensures (r + m * q) % m == r && (r + m * q) / m == q
  {
    DivModUnique(r + m * q, q, r, m);
  }

  /** An index below `m*n` has its quotient by `m` below `n`. */
  lemma QuotientBelow(k: int, m: int, n: int)
    requires 0 <= k < m * n && m > 0
    ensures 0 <= k / m < n && 0 <= k % m < m
    ensures k % m + m * (k / m) == k
  {
    if k / m >= n {
      MulMonotone(m, n, k / m);
    }
  }

  lemma ProductPositive(m: int, n: int)
    requires m >= 0 && n >= 0 && m * n > 0
    ensures m > 0 && n > 0
  {
  }

  lemma MulComm(a: int, b: int)
    ensures a * b == b * a
  {
  }

  /** Step of a strided walk: `p + (i+1)*s == p + i*s + s`. */
  lemma StrideStep(p: int, i: int, s: int)
    ensures p + (i + 1) * s == p + i * s + s
  {
  }

  /** The slot `p + i*s` of a strided walk with `s >= 1` lies within the last one. */
  lemma StrideWithin(p: int, i: int, n: int, s: int)
    requires 0 <= i < n && s >= 0
    ensures p + i * s <= p + (n - 1) * s
  {
    MulMonotone(s, i, n - 1);
  }

  /** With `s >= 1`, `k` is the `i`-th slot of the walk from `p` iff it is `p + i*s`. */
  lemma OnStrideIff(k: int, p: int, s: int, i: int)
    requires s >= 1 && i >= 0
    ensures (p <= k && (k - p) % s == 0 && (k - p) / s == i) <==> k == p + i * s
  {
    if k == p + i * s {
      OnStrideOfSlot(p, s, i);
    }
    if p <= k && (k - p) % s == 0 && (k - p) / s == i {
      SlotOfOnStride(k - p, s);
      assert k - p == i * s;
    }
  }

  lemma OnStrideOfSlot(p: int, s: int, i: int)
    requires s >= 1 && i >= 0
    ensures p <= p + i * s && (i * s) % s == 0 && (i * s) / s == i
  {
    MulModZero(i, s);
  }

  lemma SlotOfOnStride(d: int, s: int)
    requires s >= 1 && d % s == 0
    ensures d == (d / s) * s
  {
    assert d == s * (d / s) + d % s;
  }

  /** Adding a multiple of the modulus leaves the remainder unchanged. */
  lemma ModShift(x: int, q: int, m: int)
    requires m > 0
    ensures (x + q * m) % m == x % m
  {
    assert x == (x / m) * m + x % m;
    assert x + q * m == (x / m + q) * m + x % m;
    DivModUnique(x + q * m, x / m + q, x % m, m);
  }

  /** Reducing one summand first does not change the remainder of a sum. */
  lemma ModOfSum(x: int, y: int, m: int)
    requires m > 0
    ensures (x % m + y) % m == (x + y) % m
  {
    assert x % m + y == (x + y) + (-(x / m)) * m;
    ModShift(x + y, -(x / m), m);
  }

  /** The row after row `r` starts `Nc` further on. */
  lemma RowStep(Nc: int, r: int)
    ensures Nc * r + Nc == Nc * (r + 1)
  {
  }

  /** Multiplication distributes over a sum and a difference. */
  lemma MulDistributes(a: int, b: int, c: int)
    ensures a * (b + c) == a * b + a * c && a * (b - c) == a * b - a * c
  {
  }

  /** Subtracting `b` and then `a`, reducing in between, is subtracting `a + b`. */
  lemma ModSubTwice(x: int, a: int, b: int, m: int)
    requires m > 0
    ensures ((x - b) % m - a) % m == (x - (a + b)) % m
  {
    ModOfSum(x - b, -a, m);
    assert (x - b) % m + -a == (x - b) % m - a;
    assert x - b + -a == x - (a + b);
  }

  /** The two cross products of `a, b` with `c, d` agree: `(a*c)*(b*d) == (a*d)*(b*c)`. */
  lemma CrossProducts(a: int, b: int, c: int, d: int)
    ensures (a * c) * (b * d) == (a * d) * (b * c)
  {
    assert (a * c) * (b * d) == a * (c * (b * d));
    assert c * (b * d) == (b * c) * d;
    assert (a * d) * (b * c) == a * (d * (b * c));
  }
}
