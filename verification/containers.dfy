/** The containers the copy and arithmetic code works on. Their headers are not part of
    this model; each class keeps only what the code uses: the buffer, the shape and, for
    the views, the offset and the strides. Elements are `int`. */
module Containers {

  import opened ScalarArith
  import opened CopyPrimitives

  /** A dense vector (Vector<T> and the other contiguous vectors): `Size()` elements. */
  class Vector {
    var a: array<int>

    constructor (n: nat)
      ensures fresh(a) && a.Length == n
    {
      a := new int[n];
    }

    function Size(): nat
      reads this
    {
      a.Length
    }

    /** resize(n): a buffer of the new size; the old one is kept when the size is unchanged.
        The contents of a new buffer are not specified by the library. */
    method Resize(n: nat)
      modifies this
      ensures Size() == n
      ensures old(a.Length) == n ==> a == old(a)
      ensures old(a.Length) != n ==> fresh(a)
    {
      if a.Length != n {
        a := new int[n];
      }
    }
  }

  /** A dense row-major matrix (Matrix<T>): element `(i, j)` is `a[RSub2Ind(nc, i, j)]`. */
  class Matrix {
    var nr: nat
    var nc: nat
    var a: array<int>

    predicate Valid()
      reads this
    {
      a.Length == nr * nc
    }

    constructor (nr: nat, nc: nat)
      ensures this.nr == nr && this.nc == nc && fresh(a) && Valid()
    {
      this.nr, this.nc := nr, nc;
      a := new int[nr * nc];
    }

    /** resize(nr, nc): the buffer is kept when the element count is unchanged. */
    method Resize(nr: nat, nc: nat)
      modifies this
      ensures this.nr == nr && this.nc == nc && Valid()
      ensures old(a.Length) == nr * nc ==> a == old(a)
      ensures old(a.Length) != nr * nc ==> fresh(a)
    {
      this.nr, this.nc := nr, nc;
      if a.Length != nr * nc {
        a := new int[nr * nc];
      }
    }
  }

  /** A dense three-dimensional array (Mat3d<T>) of shape `n1 x n2 x n3`. */
  class Mat3d {
    var n1: nat
    var n2: nat
    var n3: nat
    var a: array<int>

    predicate Valid()
      reads this
    {
      a.Length == n1 * n2 * n3
    }

    constructor (n1: nat, n2: nat, n3: nat)
      ensures this.n1 == n1 && this.n2 == n2 && this.n3 == n3 && fresh(a) && Valid()
    {
      this.n1, this.n2, this.n3 := n1, n2, n3;
      a := new int[n1 * n2 * n3];
    }

    /** resize(n1, n2, n3): the buffer is kept when the element count is unchanged. */
    method Resize(n1: nat, n2: nat, n3: nat)
      modifies this
      ensures this.n1 == n1 && this.n2 == n2 && this.n3 == n3 && Valid()
      ensures old(a.Length) == n1 * n2 * n3 ==> a == old(a)
      ensures old(a.Length) != n1 * n2 * n3 ==> fresh(a)
    {
      this.n1, this.n2, this.n3 := n1, n2, n3;
      if a.Length != n1 * n2 * n3 {
        a := new int[n1 * n2 * n3];
      }
    }
  }

  /** A dense column-major matrix (Cmat<T>): element `(i, j)` is `a[CSub2Ind(nr, i, j)]`. */
  class Cmat {
    var nr: nat
    var nc: nat
    var a: array<int>

    predicate Valid()
      reads this
    {
      a.Length == nr * nc
    }

    constructor (nr: nat, nc: nat)
      ensures this.nr == nr && this.nc == nc && fresh(a) && Valid()
    {
      this.nr, this.nc := nr, nc;
      a := new int[nr * nc];
    }
  }

  /** A strided view (Dvector<T>): element `i < n` is `a[off + i*step]`. */
  class Dvector {
    const a: array<int>
    const off: nat
    const step: int
    const n: nat

    predicate Valid()
    {
      step >= 1 && StrideInBounds(off, n, step, a.Length)
    }

    constructor (a: array<int>, off: nat, step: int, n: nat)
      requires step >= 1 && StrideInBounds(off, n, step, a.Length)
      ensures this.a == a && this.off == off && this.step == step && this.n == n && Valid()
    {
      this.a, this.off, this.step, this.n := a, off, step, n;
    }
  }

  /** A row-major view with leading dimension (Dmat<T>): element `(i, j)` is
      `a[off + RSub2Ind(lda, i, j)]`. */
  class Dmat {
    const a: array<int>
    const off: nat
    const lda: nat
    const nr: nat
    const nc: nat

    predicate Valid()
    {
      BlockInBounds(off, lda, nr, nc, a.Length)
    }

    constructor (a: array<int>, off: nat, lda: nat, nr: nat, nc: nat)
      requires BlockInBounds(off, lda, nr, nc, a.Length)
      ensures this.a == a && this.off == off && this.lda == lda && this.nr == nr && this.nc == nc && Valid()
    {
      this.a, this.off, this.lda, this.nr, this.nc := a, off, lda, nr, nc;
    }
  }

  /** A column-major view with leading dimension (Dcmat<T>): element `(i, j)` is
      `a[off + CSub2Ind(lda, i, j)]`. */
  class Dcmat {
    const a: array<int>
    const off: nat
    const lda: nat
    const nr: nat
    const nc: nat

    predicate Valid()
    {
      BlockInBounds(off, lda, nc, nr, a.Length)
    }

    constructor (a: array<int>, off: nat, lda: nat, nr: nat, nc: nat)
      requires BlockInBounds(off, lda, nc, nr, a.Length)
      ensures this.a == a && this.off == off && this.lda == lda && this.nr == nr && this.nc == nc && Valid()
    {
      this.a, this.off, this.lda, this.nr, this.nc := a, off, lda, nr, nc;
    }
  }
}
