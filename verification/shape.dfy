/** Shape comparison and container equality of SLISC/arithmetic.h. */
module Shape {

  import opened Containers
  import Coo

  /** shape_cmp of two vectors: equal sizes, that is, buffers of the same length. */
  function ShapeCmpVector(v1: Vector, v2: Vector): (r: bool)
    reads v1, v2
    ensures r <==> v1.a.Length == v2.a.Length
  {
    v1.Size() == v2.Size()
  }

  /** shape_cmp of two matrices: equal row and column counts, hence equal buffer sizes. */
  function ShapeCmpMatrix(a1: Matrix, a2: Matrix): (r: bool)
    requires a1.Valid() && a2.Valid()
    reads a1, a2
    ensures r ==> a1.a.Length == a2.a.Length
  {
    a1.nr == a2.nr && a1.nc == a2.nc
  }

  /** shape_cmp of a dense matrix and a MatCoo, in either order: equal row and column counts,
      so the dense buffer has a slot for every element the MatCoo can address. */
  function ShapeCmpMatrixCoo(a1: Matrix, a2: Coo.MatCoo): (r: bool)
    requires a1.Valid()
    reads a1, a2
    ensures r ==> a1.a.Length == a2.nr * a2.nc
  {
    a1.nr == a2.nr && a1.nc == a2.nc
  }

  /** shape_cmp of two Mat3d: all three dimensions equal, hence equal buffer sizes. */
  function ShapeCmpMat3d(a1: Mat3d, a2: Mat3d): (r: bool)
    requires a1.Valid() && a2.Valid()
    reads a1, a2
    ensures r ==> a1.a.Length == a2.a.Length
  {
    a1.n1 == a2.n1 && a1.n2 == a2.n2 && a1.n3 == a2.n3
  }

  /** The element-wise comparison of the first `n` elements of two buffers. */
  predicate EqualsTo(a1: array<int>, a2: array<int>, n: nat)
    requires n <= a1.Length && n <= a2.Length
    reads a1, a2
  {
    forall i :: 0 <= i < n ==> a1[i] == a2[i]
  }

  /** Vector == Vector: equal exactly when the element sequences are equal. */
  function EqualVector(v1: Vector, v2: Vector): (r: bool)
    reads v1, v2, v1.a, v2.a
    ensures r <==> v1.a[..] == v2.a[..]
  {
    ShapeCmpVector(v1, v2) && EqualsTo(v1.a, v2.a, v2.Size())
  }

  /** Matrix == Matrix: equal exactly when the shapes and the element sequences are equal;
      a 2 x 3 and a 3 x 2 matrix with the same buffer are different. */
  function EqualMatrix(v1: Matrix, v2: Matrix): (r: bool)
    requires v1.Valid() && v2.Valid()
    reads v1, v2, v1.a, v2.a
    ensures r <==> v1.nr == v2.nr && v1.nc == v2.nc && v1.a[..] == v2.a[..]
  {
    ShapeCmpMatrix(v1, v2) && EqualsTo(v1.a, v2.a, v2.a.Length)
  }

  /** Mat3d == Mat3d. */
  function EqualMat3d(v1: Mat3d, v2: Mat3d): (r: bool)
    requires v1.Valid() && v2.Valid()
    reads v1, v2, v1.a, v2.a
    ensures r <==> v1.n1 == v2.n1 && v1.n2 == v2.n2 && v1.n3 == v2.n3 && v1.a[..] == v2.a[..]
  {
    ShapeCmpMat3d(v1, v2) && EqualsTo(v1.a, v2.a, v2.a.Length)
  }

  /** The != operators are the negations of ==. */
  function NotEqualVector(v1: Vector, v2: Vector): (r: bool)
    reads v1, v2, v1.a, v2.a
    ensures r <==> v1.a[..] != v2.a[..]
  {
    !EqualVector(v1, v2)
  }

  function NotEqualMatrix(v1: Matrix, v2: Matrix): (r: bool)
    requires v1.Valid() && v2.Valid()
    reads v1, v2, v1.a, v2.a
    ensures r <==> !(v1.nr == v2.nr && v1.nc == v2.nc) || v1.a[..] != v2.a[..]
  {
    !EqualMatrix(v1, v2)
  }

  function NotEqualMat3d(v1: Mat3d, v2: Mat3d): (r: bool)
    requires v1.Valid() && v2.Valid()
    reads v1, v2, v1.a, v2.a
    ensures r <==> !(v1.n1 == v2.n1 && v1.n2 == v2.n2 && v1.n3 == v2.n3) || v1.a[..] != v2.a[..]
  {
    !EqualMat3d(v1, v2)
  }

  /** A container == a scalar: every element equals it (the buffer of a Vector, Matrix or
      Mat3d). An empty container equals every scalar. */
  function EqualScalar(a: array<int>, s: int): (r: bool)
    reads a
    ensures r <==> a[..] == seq(a.Length, _ => s)
    ensures a.Length == 0 ==> r
  {
    forall i :: 0 <= i < a.Length ==> a[i] == s
  }

  function NotEqualScalar(a: array<int>, s: int): (r: bool)
    reads a
    ensures r <==> exists i :: 0 <= i < a.Length && a[i] != s
  {
    !EqualScalar(a, s)
  }
}
