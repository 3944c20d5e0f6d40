/** Element-wise arithmetic on containers (compound `op=` operators, the three-operand
    `plus`/`minus`/`times`/`divide`/`rem`/`mod` forms, `minus(v)`), the outer product
    `outprod` and the row-vector times matrix product `mul_par`. Elements are integers;
    `/` and `%` are C++'s operators, truncating toward zero. */
module Elementwise {

  import opened NonLinear
  import opened ScalarArith
  import opened CopyPrimitives
  import opened Containers
  import opened Shape

  // ---------------------------------------------------------------------------
  // The element operations and their specification on sequences

  /** The binary element operators. `Modulo` is the library's positive modulus `mod`. */
  datatype Op = Plus | Minus | Times | Divide | Rem | Modulo

  /** Integer division and both remainders are undefined for a zero right operand. */
  predicate NeedsNonzero(op: Op)
  {
    op == Divide || op == Rem || op == Modulo
  }

  function Apply(op: Op, x: int, y: int): int
    requires NeedsNonzero(op) ==> y != 0
  {
    match op
    case Plus => x + y
    case Minus => x - y
    case Times => x * y
    case Divide => CDiv(x, y)
    case Rem => CRem(x, y)
    case Modulo => Mod(x, y)
  }

  /** Every right operand in `t` is acceptable to `op`. */
  predicate Admissible(op: Op, t: seq<int>)
  {
    NeedsNonzero(op) ==> forall i :: 0 <= i < |t| ==> t[i] != 0
  }

  /** The element-wise result `s op t`. */
  function Combined(op: Op, s: seq<int>, t: seq<int>): (r: seq<int>)
    requires |s| == |t| && Admissible(op, t)
    ensures |r| == |s|
  {
    seq(|s|, i requires 0 <= i < |s| => Apply(op, s[i], t[i]))
  }

  /** `n` copies of the scalar `x`: the scalar operand of the mixed forms. */
  function Const(n: nat, x: int): (r: seq<int>)
    ensures |r| == n && forall i :: 0 <= i < n ==> r[i] == x
  {
    seq(n, _ => x)
  }

  /** Subtracting what was added gives the input back. */
  lemma MinusUndoesPlus(s: seq<int>, t: seq<int>)
    requires |s| == |t|
    ensures Combined(Minus, Combined(Plus, s, t), t) == s
  {
  }

  /** Truncating division and remainder recombine to the dividend: `(s/t)*t + s%t == s`. */
  lemma DivideRemRecombine(s: seq<int>, t: seq<int>)
    requires |s| == |t| && Admissible(Divide, t)
    ensures Combined(Plus, Combined(Times, Combined(Divide, s, t), t), Combined(Rem, s, t)) == s
  {
    var q := Combined(Divide, s, t);
    var p := Combined(Times, q, t);
    var r := Combined(Rem, s, t);
    forall i | 0 <= i < |s|
      ensures Combined(Plus, p, r)[i] == s[i]
    {
      assert q[i] * t[i] + CRem(s[i], t[i]) == s[i];
    }
  }

  /** The remainder `%` is smaller than the divisor in magnitude and takes the dividend's sign. */
  lemma RemBounds(s: seq<int>, t: seq<int>, i: int)
    requires |s| == |t| && Admissible(Rem, t) && 0 <= i < |s|
    ensures Abs(Combined(Rem, s, t)[i]) < Abs(t[i])
    ensures s[i] >= 0 ==> Combined(Rem, s, t)[i] >= 0
    ensures s[i] <= 0 ==> Combined(Rem, s, t)[i] <= 0
  {
  }

  /** With positive divisors `mod` lands in `[0, t[i])` and is congruent to the dividend. */
  lemma ModuloInRange(s: seq<int>, t: seq<int>, i: int)
    requires |s| == |t| && 0 <= i < |s| && forall k :: 0 <= k < |t| ==> t[k] > 0
    ensures 0 <= Combined(Modulo, s, t)[i] < t[i]
    ensures Combined(Modulo, s, t)[i] == s[i] % t[i]
  {
    ModPositive(s[i], t[i]);
  }

  /** `+` and `*` may take their operands in either order, which is how `plus(v, s, v1)` and
      `times(v, s, v1)` reuse the `(v, v1, s)` forms. */
  lemma CommutativeSwap(op: Op, s: seq<int>, t: seq<int>)
    requires op == Plus || op == Times
    requires |s| == |t|
    ensures Combined(op, s, t) == Combined(op, t, s)
  {
  }

  /** Multiplying by `-1` negates every element, and doing it twice restores the input. */
  lemma TimesMinusOne(s: seq<int>)
    ensures forall i :: 0 <= i < |s| ==> Combined(Times, s, Const(|s|, -1))[i] == -s[i]
    ensures Combined(Times, Combined(Times, s, Const(|s|, -1)), Const(|s|, -1)) == s
  {
  }

  /** `0 - v1` as computed by `minus(v, v1)` is the negation of every element. */
  lemma ZeroMinusNegates(t: seq<int>)
    ensures Combined(Minus, Const(|t|, 0), t) == Combined(Times, t, Const(|t|, -1))
  {
  }

  // ---------------------------------------------------------------------------
  // Element kernels on buffers

  /** `v op= v1` element by element. `v1` may be `v` itself. */
  method CompoundInPlace(v: array<int>, v1: array<int>, op: Op)
    requires v.Length == v1.Length && Admissible(op, v1[..])
    modifies v
    ensures v[..] == Combined(op, old(v[..]), old(v1[..]))
  {
    ghost var s, t := v[..], v1[..];
    for i := 0 to v.Length
      invariant forall k :: 0 <= k < i ==> v[k] == Apply(op, s[k], t[k])
      invariant forall k :: i <= k < v.Length ==> v[k] == s[k] && v1[k] == t[k]
    {
      v[i] := Apply(op, v[i], v1[i]);
    }
  }

  /** `v op= x` for a scalar `x`: `+=`, `-=`, `*=` and `%=` (with `Rem`). The library has
      no integer `/=` by a scalar and no scalar `mod`-assignment. */
  method CompoundScalar(v: array<int>, x: int, op: Op)
    requires op != Divide && op != Modulo
    requires op == Rem ==> x != 0
    modifies v
    ensures v[..] == Combined(op, old(v[..]), Const(v.Length, x))
  {
    ghost var s := v[..];
    for i := 0 to v.Length
      invariant forall k :: 0 <= k < i ==> v[k] == Apply(op, s[k], x)
      invariant forall k :: i <= k < v.Length ==> v[k] == s[k]
    {
      v[i] := Apply(op, v[i], x);
    }
  }

  /** minus(v): every element is multiplied by `-1` in place. */
  method Negate(v: array<int>)
    modifies v
    ensures v[..] == Combined(Times, old(v[..]), Const(v.Length, -1))
  {
    ghost var s := v[..];
    for i := 0 to v.Length
      invariant forall k :: 0 <= k < i ==> v[k] == s[k] * -1
      invariant forall k :: i <= k < v.Length ==> v[k] == s[k]
    {
      v[i] := v[i] * -1;
    }
  }

  /** `v = v1 op v2` element by element; either operand may be `v` itself. */
  method CombineInto(v: array<int>, v1: array<int>, v2: array<int>, op: Op)
    requires v.Length == v1.Length == v2.Length && Admissible(op, v2[..])
    modifies v
    ensures v[..] == Combined(op, old(v1[..]), old(v2[..]))
  {
    ghost var s, t := v1[..], v2[..];
    for i := 0 to v.Length
      invariant forall k :: 0 <= k < i ==> v[k] == Apply(op, s[k], t[k])
      invariant forall k :: i <= k < v.Length ==> v1[k] == s[k] && v2[k] == t[k]
    {
      v[i] := Apply(op, v1[i], v2[i]);
    }
  }

  /** The admissibility of a mixed vector/scalar operation: the right operand is the scalar
      `x` unless `scalarFirst`, when it is the buffer `t`. */
  predicate AdmissibleMixed(op: Op, t: seq<int>, x: int, scalarFirst: bool)
  {
    if scalarFirst then Admissible(op, t) else NeedsNonzero(op) ==> x != 0
  }

  /** The element-wise result of a mixed operation: `x op t` or `t op x`. */
  function CombinedMixed(op: Op, t: seq<int>, x: int, scalarFirst: bool): (r: seq<int>)
    requires AdmissibleMixed(op, t, x, scalarFirst)
    ensures |r| == |t|
  {
    if scalarFirst then Combined(op, Const(|t|, x), t) else Combined(op, t, Const(|t|, x))
  }

  /** `v = v1 op x` (the `(v, v1, s)` forms) or `v = x op v1` (the `(v, s, v1)` forms). */
  method CombineScalarInto(v: array<int>, v1: array<int>, x: int, op: Op, scalarFirst: bool)
    requires v.Length == v1.Length && AdmissibleMixed(op, v1[..], x, scalarFirst)
    modifies v
    ensures v[..] == CombinedMixed(op, old(v1[..]), x, scalarFirst)
  {
    ghost var t := v1[..];
    for i := 0 to v.Length
      invariant forall k :: 0 <= k < i ==>
        v[k] == if scalarFirst then Apply(op, x, t[k]) else Apply(op, t[k], x)
      invariant forall k :: i <= k < v.Length ==> v1[k] == t[k]
    {
      v[i] := if scalarFirst then Apply(op, x, v1[i]) else Apply(op, v1[i], x);
    }
  }

  // ---------------------------------------------------------------------------
  // Container forms: shape check, then resize of the target where the library resizes

  /** Vector `v op= v1` for `+=`, `-=`, `*=` and `/=`: the shapes must agree; `v` keeps
      its size. */
  method VectorCompound(v: Vector, v1: Vector, op: Op)
    requires op != Rem && op != Modulo
    requires ShapeCmpVector(v, v1) && Admissible(op, v1.a[..])
    modifies v.a
    ensures v.a[..] == Combined(op, old(v.a[..]), old(v1.a[..]))
  {
    CompoundInPlace(v.a, v1.a, op);
  }

  /** Matrix `v op= v1`: the shapes must agree; `v` keeps its shape. */
  method MatrixCompound(v: Matrix, v1: Matrix, op: Op)
    requires op != Rem && op != Modulo
    requires v.Valid() && v1.Valid() && ShapeCmpMatrix(v, v1) && Admissible(op, v1.a[..])
    modifies v.a
    ensures v.a[..] == Combined(op, old(v.a[..]), old(v1.a[..]))
  {
    CompoundInPlace(v.a, v1.a, op);
  }

  /** Column-major matrix `v op= v1`: the shapes must agree; `v` keeps its shape. */
  method CmatCompound(v: Cmat, v1: Cmat, op: Op)
    requires op != Rem && op != Modulo
    requires v.Valid() && v1.Valid() && v.nr == v1.nr && v.nc == v1.nc && Admissible(op, v1.a[..])
    modifies v.a
    ensures v.a[..] == Combined(op, old(v.a[..]), old(v1.a[..]))
  {
    CompoundInPlace(v.a, v1.a, op);
  }

  /** Three-dimensional `v op= v1`: the shapes must agree; `v` keeps its shape. */
  method Mat3dCompound(v: Mat3d, v1: Mat3d, op: Op)
    requires op != Rem && op != Modulo
    requires v.Valid() && v1.Valid() && ShapeCmpMat3d(v, v1) && Admissible(op, v1.a[..])
    modifies v.a
    ensures v.a[..] == Combined(op, old(v.a[..]), old(v1.a[..]))
  {
    CompoundInPlace(v.a, v1.a, op);
  }

  /** Vector `v = v1 op v2`: `v1` and `v2` must agree in shape; `v` takes `v1`'s. */
  method VectorCombine(v: Vector, v1: Vector, v2: Vector, op: Op)
    requires ShapeCmpVector(v1, v2) && Admissible(op, v2.a[..])
    modifies v, v.a
    ensures v.Size() == old(v1.Size())
    ensures v.a[..] == Combined(op, old(v1.a[..]), old(v2.a[..]))
  {
    v.Resize(v1.Size());
    CombineInto(v.a, v1.a, v2.a, op);
  }

  /** Matrix `v = v1 op v2`: `v1` and `v2` must agree in shape; `v` takes `v1`'s. */
  method MatrixCombine(v: Matrix, v1: Matrix, v2: Matrix, op: Op)
    requires v1.Valid() && v2.Valid() && ShapeCmpMatrix(v1, v2) && Admissible(op, v2.a[..])
    modifies v, v.a
    ensures v.nr == old(v1.nr) && v.nc == old(v1.nc) && v.Valid()
    ensures v.a[..] == Combined(op, old(v1.a[..]), old(v2.a[..]))
  {
    v.Resize(v1.nr, v1.nc);
    CombineInto(v.a, v1.a, v2.a, op);
  }

  /** Three-dimensional `v = v1 op v2`: `v1` and `v2` must agree in shape; `v` takes `v1`'s. */
  method Mat3dCombine(v: Mat3d, v1: Mat3d, v2: Mat3d, op: Op)
    requires v1.Valid() && v2.Valid() && ShapeCmpMat3d(v1, v2) && Admissible(op, v2.a[..])
    modifies v, v.a
    ensures v.n1 == old(v1.n1) && v.n2 == old(v1.n2) && v.n3 == old(v1.n3) && v.Valid()
    ensures v.a[..] == Combined(op, old(v1.a[..]), old(v2.a[..]))
  {
    v.Resize(v1.n1, v1.n2, v1.n3);
    CombineInto(v.a, v1.a, v2.a, op);
  }

  /** Vector `v = v1 op x` or `v = x op v1`; `v` takes `v1`'s size. */
  method VectorCombineScalar(v: Vector, v1: Vector, x: int, op: Op, scalarFirst: bool)
    requires AdmissibleMixed(op, v1.a[..], x, scalarFirst)
    modifies v, v.a
    ensures v.Size() == old(v1.Size())
    ensures v.a[..] == CombinedMixed(op, old(v1.a[..]), x, scalarFirst)
  {
    v.Resize(v1.Size());
    CombineScalarInto(v.a, v1.a, x, op, scalarFirst);
  }

  /** Matrix `v = v1 op x` or `v = x op v1`; `v` takes `v1`'s shape. */
  method MatrixCombineScalar(v: Matrix, v1: Matrix, x: int, op: Op, scalarFirst: bool)
    requires v1.Valid() && AdmissibleMixed(op, v1.a[..], x, scalarFirst)
    modifies v, v.a
    ensures v.nr == old(v1.nr) && v.nc == old(v1.nc) && v.Valid()
    ensures v.a[..] == CombinedMixed(op, old(v1.a[..]), x, scalarFirst)
  {
    v.Resize(v1.nr, v1.nc);
    CombineScalarInto(v.a, v1.a, x, op, scalarFirst);
  }

  /** Three-dimensional `v = v1 op x` or `v = x op v1`; `v` takes `v1`'s shape. */
  method Mat3dCombineScalar(v: Mat3d, v1: Mat3d, x: int, op: Op, scalarFirst: bool)
    requires v1.Valid() && AdmissibleMixed(op, v1.a[..], x, scalarFirst)
    modifies v, v.a
    ensures v.n1 == old(v1.n1) && v.n2 == old(v1.n2) && v.n3 == old(v1.n3) && v.Valid()
    ensures v.a[..] == CombinedMixed(op, old(v1.a[..]), x, scalarFirst)
  {
    v.Resize(v1.n1, v1.n2, v1.n3);
    CombineScalarInto(v.a, v1.a, x, op, scalarFirst);
  }

  // ---------------------------------------------------------------------------
  // Outer product

  /** The `|x|` by `|y|` row-major matrix with element `(i, j)` equal to `x[i] * y[j]`. */
  function OuterProduct(x: seq<int>, y: seq<int>): (r: seq<int>)
    ensures |r| == |x| * |y|
  {
    seq(|x| * |y|, k requires 0 <= k < |x| * |y| =>
      RSub2IndOnto(|x|, |y|, k); x[k / |y|] * y[k % |y|])
  }

  lemma OuterProductAt(x: seq<int>, y: seq<int>, i: int, j: int)
    requires 0 <= i < |x| && 0 <= j < |y|
    ensures Entry(OuterProduct(x, y), |y|, i, j) == x[i] * y[j]
  {
    RSub2IndBijective(|x|, |y|, i, j);
  }

  /** The outer product has rank at most one: every 2 by 2 minor vanishes. */
  lemma OuterProductRankOne(x: seq<int>, y: seq<int>, i: int, j: int, i2: int, j2: int)
    requires 0 <= i < |x| && 0 <= j < |y| && 0 <= i2 < |x| && 0 <= j2 < |y|
    ensures var r := OuterProduct(x, y);
      Entry(r, |y|, i, j) * Entry(r, |y|, i2, j2) == Entry(r, |y|, i, j2) * Entry(r, |y|, i2, j)
  {
    OuterProductAt(x, y, i, j);
    OuterProductAt(x, y, i2, j2);
    OuterProductAt(x, y, i, j2);
    OuterProductAt(x, y, i2, j);
    CrossProducts(x[i], x[i2], y[j], y[j2]);
  }

  /** Swapping the factors transposes the outer product. */
  lemma OuterProductTranspose(x: seq<int>, y: seq<int>, i: int, j: int)
    requires 0 <= i < |x| && 0 <= j < |y|
    ensures Entry(OuterProduct(y, x), |x|, j, i) == Entry(OuterProduct(x, y), |y|, i, j)
  {
    OuterProductAt(x, y, i, j);
    OuterProductAt(y, x, j, i);
  }

  /** Row `i` of the product: `d[off + j] = s * y[j]` for `j < |y|`, nothing else written. */
  method WriteScaledRow(d: array<int>, off: nat, s: int, y: array<int>)
    requires off + y.Length <= d.Length && d != y
    modifies d
    ensures forall k :: 0 <= k < d.Length ==>
      d[k] == if off <= k < off + y.Length then s * y[k - off] else old(d[k])
  {
    for j := 0 to y.Length
      invariant forall k :: 0 <= k < d.Length ==>
        d[k] == if off <= k < off + j then s * y[k - off] else old(d[k])
    {
      d[off + j] := s * y[j];
    }
  }

  /** Fills `d` with the outer product of `x` and `y`, row by row. */
  method OuterInto(d: array<int>, x: array<int>, y: array<int>)
    requires d.Length == x.Length * y.Length && d != x && d != y
    modifies d
    ensures d[..] == OuterProduct(old(x[..]), old(y[..]))
  {
    ghost var xs, ys := x[..], y[..];
    ghost var r := OuterProduct(xs, ys);
    var N1, N2 := x.Length, y.Length;
    MulComm(N1, N2);
    for i := 0 to N1
      invariant N2 * i <= d.Length
      invariant x[..] == xs && y[..] == ys
      invariant forall k :: 0 <= k < N2 * i ==> d[k] == r[k]
    {
      RowStep(N2, i);
      MulMonotone(N2, i + 1, N1);
      WriteScaledRow(d, N2 * i, x[i], y);
      forall k | N2 * i <= k < N2 * i + N2
        ensures d[k] == r[k]
      {
        LinearSplit(N2, k - N2 * i, i);
      }
    }
    MulMonotone(N2, N1, N1);
  }

  /** outprod(v, v1, v2): `v` becomes the `|v1|` by `|v2|` matrix of products `v1[i] * v2[j]`. */
  method Outprod(v: Matrix, v1: Vector, v2: Vector)
    requires v.a != v1.a && v.a != v2.a
    modifies v, v.a
    ensures v.nr == old(v1.Size()) && v.nc == old(v2.Size()) && v.Valid()
    ensures v.a[..] == OuterProduct(old(v1.a[..]), old(v2.a[..]))
  {
    v.Resize(v1.Size(), v2.Size());
    OuterInto(v.a, v1.a, v2.a);
  }

  // ---------------------------------------------------------------------------
  // Row vector times matrix

  /** `x[0] * a(0, j) + ... + x[r-1] * a(r-1, j)` for a row-major buffer `m` with `Nc` columns. */
  function ColumnDot(x: seq<int>, m: seq<int>, Nc: nat, r: nat, j: int): int
    requires r <= |x|
  {
    if r == 0 then 0 else ColumnDot(x, m, Nc, r - 1, j) + x[r - 1] * Entry(m, Nc, r - 1, j)
  }

  /** The row vector `x` times the `|x|` by `Nc` matrix `m`. */
  function VecMat(x: seq<int>, m: seq<int>, Nc: nat): (y: seq<int>)
    ensures |y| == Nc
  {
    seq(Nc, j => ColumnDot(x, m, Nc, |x|, j))
  }

  /** The unit row vector `e_p` picks out row `p` of the matrix. */
  lemma {:induction false} ColumnDotUnit(x: seq<int>, m: seq<int>, Nc: nat, r: nat, j: int, p: int)
    requires r <= |x| && forall k :: 0 <= k < |x| ==> x[k] == (if k == p then 1 else 0)
    ensures ColumnDot(x, m, Nc, r, j) == if 0 <= p < r then Entry(m, Nc, p, j) else 0
  {
    if r > 0 {
      ColumnDotUnit(x, m, Nc, r - 1, j, p);
    }
  }

  /** The product is linear in the row vector. */
  lemma {:induction false} ColumnDotAdditive(x: seq<int>, z: seq<int>, m: seq<int>, Nc: nat, r: nat, j: int)
    requires |x| == |z| && r <= |x|
    ensures ColumnDot(Combined(Plus, x, z), m, Nc, r, j) == ColumnDot(x, m, Nc, r, j) + ColumnDot(z, m, Nc, r, j)
  {
    if r > 0 {
      ColumnDotAdditive(x, z, m, Nc, r - 1, j);
      var e := Entry(m, Nc, r - 1, j);
      assert (x[r - 1] + z[r - 1]) * e == x[r - 1] * e + z[r - 1] * e;
    }
  }

  /** Row `e_p` times the matrix is row `p`. */
  lemma VecMatUnit(x: seq<int>, m: seq<int>, Nc: nat, p: int)
    requires 0 <= p < |x| && forall k :: 0 <= k < |x| ==> x[k] == (if k == p then 1 else 0)
    ensures forall j :: 0 <= j < Nc ==> VecMat(x, m, Nc)[j] == Entry(m, Nc, p, j)
  {
    forall j | 0 <= j < Nc
      ensures VecMat(x, m, Nc)[j] == Entry(m, Nc, p, j)
    {
      ColumnDotUnit(x, m, Nc, |x|, j, p);
    }
  }

  /** `y[j] += x[k] * a(k, j)` for `k < m`: the inner loop of mul_par for column `j`. */
  method AccumulateColumn(y: array<int>, j: nat, x: array<int>, a: array<int>, m: nat, n: nat)
    requires j < y.Length && j < n && x.Length == m && a.Length == m * n
    requires y != x && y != a
    modifies y
    ensures y[j] == old(y[j]) + ColumnDot(x[..], a[..], n, m, j)
    ensures forall q :: 0 <= q < y.Length && q != j ==> y[q] == old(y[q])
  {
    for k := 0 to m
      invariant y[j] == old(y[j]) + ColumnDot(x[..], a[..], n, k, j)
      invariant forall q :: 0 <= q < y.Length && q != j ==> y[q] == old(y[q])
    {
      RSub2IndBijective(m, n, k, j);
      y[j] := y[j] + x[k] * a[n * k + j];
    }
  }

  /** mul_par(y, x, a): `y` becomes the row vector `x` times `a`; `|x|` must be the number of rows. */
  method MulPar(y: Vector, x: Vector, a: Matrix)
    requires a.Valid() && x.Size() == a.nr
    requires y.a != x.a && y.a != a.a
    modifies y, y.a
    ensures y.Size() == a.nc
    ensures y.a[..] == VecMat(old(x.a[..]), old(a.a[..]), a.nc)
  {
    var m, n := a.nr, a.nc;
    y.Resize(n);
    VecSet(y.a, 0, 0, n);
    ghost var xs, ms := x.a[..], a.a[..];
    for j := 0 to n
      invariant y.a == old(y.a) || fresh(y.a)
      invariant y.a.Length == n && y.a != x.a && y.a != a.a
      invariant x.a[..] == xs && a.a[..] == ms
      invariant forall q :: 0 <= q < j ==> y.a[q] == ColumnDot(xs, ms, n, m, q)
      invariant forall q :: j <= q < n ==> y.a[q] == 0
    {
      AccumulateColumn(y.a, j, x.a, a.a, m, n);
    }
  }
}
