/** The container interface of SLISC/copy.h: each `copy` overload compares the shapes,
    reporting "wrong shape!", and then makes one call to a pointer primitive. */
module ContainerCopy {

  import opened NonLinear
  import opened ScalarArith
  import opened CopyPrimitives
  import opened Containers

  /** What a copy does: it copies, or it stops with one of the library's diagnostics. */
  datatype Outcome = Copied | WrongShape | NotEnoughCapacity | SelfAssignment

  /** Contiguous copy between dense vectors: veccpy over `size()` elements. */
  method CopyVector(v: Vector, v1: Vector) returns (r: Outcome)
    requires v.a != v1.a
    modifies v.a
    ensures r == (if v.Size() == v1.Size() then Copied else WrongShape)
    ensures r == Copied ==> v.a[..] == v1.a[..]
    ensures r != Copied ==> unchanged(v.a)
  {
    if v.Size() != v1.Size() {
      return WrongShape;
    }
    VecCpy(v.a, 0, v1.a, 0, v.Size());
    r := Copied;
  }

  /** Contiguous copy between row-major matrices of the same shape. */
  method CopyMatrix(a: Matrix, a1: Matrix) returns (r: Outcome)
    requires a.Valid() && a1.Valid() && a.a != a1.a
    modifies a.a
    ensures r == (if a.nr == a1.nr && a.nc == a1.nc then Copied else WrongShape)
    ensures r == Copied ==> a.a[..] == a1.a[..]
    ensures r != Copied ==> unchanged(a.a)
  {
    if !(a.nr == a1.nr && a.nc == a1.nc) {
      return WrongShape;
    }
    VecCpy(a.a, 0, a1.a, 0, a.a.Length);
    r := Copied;
  }

  /** Contiguous copy between column-major matrices of the same shape. */
  method CopyCmat(a: Cmat, a1: Cmat) returns (r: Outcome)
    requires a.Valid() && a1.Valid() && a.a != a1.a
    modifies a.a
    ensures r == (if a.nr == a1.nr && a.nc == a1.nc then Copied else WrongShape)
    ensures r == Copied ==> a.a[..] == a1.a[..]
    ensures r != Copied ==> unchanged(a.a)
  {
    if !(a.nr == a1.nr && a.nc == a1.nc) {
      return WrongShape;
    }
    VecCpy(a.a, 0, a1.a, 0, a.a.Length);
    r := Copied;
  }

  /** Dvector to Dvector: veccpy with both strides; slots of the destination buffer off
      its walk are unchanged. */
  method CopyDvector(v: Dvector, v1: Dvector) returns (r: Outcome)
    requires v.Valid() && v1.Valid() && v.a != v1.a
    modifies v.a
    ensures r == (if v.n == v1.n then Copied else WrongShape)
    ensures r == Copied ==> forall i :: 0 <= i < v.n ==>
      0 <= v.off + i * v.step < v.a.Length && 0 <= v1.off + i * v1.step < v1.a.Length &&
      v.a[v.off + i * v.step] == v1.a[v1.off + i * v1.step]
    ensures forall k :: 0 <= k < v.a.Length && !OnStride(k, v.off, v.n, v.step) ==> v.a[k] == old(v.a[k])
    ensures r != Copied ==> unchanged(v.a)
  {
    if v.n != v1.n {
      return WrongShape;
    }
    VecCpyStrided(v.a, v.off, v.step, v1.a, v1.off, v1.step, v.n);
    r := Copied;
  }

  /** Dvector source, dense destination (copy.h:132-143, whose comment names the roles the
      other way round): veccpy with a source stride. */
  method CopyVectorFromDvector(v: Vector, v1: Dvector) returns (r: Outcome)
    requires v1.Valid() && v.a != v1.a
    modifies v.a
    ensures r == (if v.Size() == v1.n then Copied else WrongShape)
    ensures r == Copied ==> forall i :: 0 <= i < v1.n ==>
      0 <= v1.off + i * v1.step < v1.a.Length && v.a[i] == v1.a[v1.off + i * v1.step]
    ensures r != Copied ==> unchanged(v.a)
  {
    if v.Size() != v1.n {
      return WrongShape;
    }
    VecCpyFromStrided(v.a, 0, v1.a, v1.off, v1.step, v1.n);
    r := Copied;
  }

  /** Dense source, Dvector destination (copy.h:145-156, whose comment names the roles the
      other way round): veccpy with a destination stride. */
  method CopyDvectorFromVector(v: Dvector, v1: Vector) returns (r: Outcome)
    requires v.Valid() && v.a != v1.a
    modifies v.a
    ensures r == (if v.n == v1.Size() then Copied else WrongShape)
    ensures r == Copied ==> forall i :: 0 <= i < v.n ==>
      0 <= v.off + i * v.step < v.a.Length && v.a[v.off + i * v.step] == v1.a[i]
    ensures forall k :: 0 <= k < v.a.Length && !OnStride(k, v.off, v.n, v.step) ==> v.a[k] == old(v.a[k])
    ensures r != Copied ==> unchanged(v.a)
  {
    if v.n != v1.Size() {
      return WrongShape;
    }
    VecCpyToStrided(v.a, v.off, v.step, v1.a, 0, v1.Size());
    r := Copied;
  }

  /** Row-major source, column-major destination: matcpy_2_major(a, a1, n2, n1). Every
      element `(i, j)` arrives at its place. */
  method CopyCmatFromMatrix(a: Cmat, a1: Matrix) returns (r: Outcome)
    requires a.Valid() && a1.Valid() && a.a != a1.a
    modifies a.a
    ensures r == (if a.nr == a1.nr && a.nc == a1.nc then Copied else WrongShape)
    ensures r == Copied ==> forall i, j :: 0 <= i < a.nr && 0 <= j < a.nc ==>
      0 <= CSub2Ind(a.nr, i, j) < a.a.Length && 0 <= RSub2Ind(a1.nc, i, j) < a1.a.Length &&
      a.a[CSub2Ind(a.nr, i, j)] == a1.a[RSub2Ind(a1.nc, i, j)]
    ensures r != Copied ==> unchanged(a.a)
  {
    if !(a.nr == a1.nr && a.nc == a1.nc) {
      return WrongShape;
    }
    MulComm(a.nr, a.nc);
    MatCpy2Major(a.a, 0, a1.a, 0, a.nc, a.nr);
    r := Copied;
  }

  /** Column-major source, row-major destination: matcpy_2_major(a, a1, n1, n2). Every
      element `(i, j)` arrives at its place. */
  method CopyMatrixFromCmat(a: Matrix, a1: Cmat) returns (r: Outcome)
    requires a.Valid() && a1.Valid() && a.a != a1.a
    modifies a.a
    ensures r == (if a.nr == a1.nr && a.nc == a1.nc then Copied else WrongShape)
    ensures r == Copied ==> forall i, j :: 0 <= i < a.nr && 0 <= j < a.nc ==>
      0 <= RSub2Ind(a.nc, i, j) < a.a.Length && 0 <= CSub2Ind(a1.nr, i, j) < a1.a.Length &&
      a.a[RSub2Ind(a.nc, i, j)] == a1.a[CSub2Ind(a1.nr, i, j)]
    ensures r != Copied ==> unchanged(a.a)
  {
    if !(a.nr == a1.nr && a.nc == a1.nc) {
      return WrongShape;
    }
    MatCpy2Major(a.a, 0, a1.a, 0, a.nr, a.nc);
    forall i, j | 0 <= i < a.nr && 0 <= j < a.nc
      ensures 0 <= RSub2Ind(a.nc, i, j) < a.a.Length && 0 <= CSub2Ind(a1.nr, i, j) < a1.a.Length
      ensures a.a[RSub2Ind(a.nc, i, j)] == a1.a[CSub2Ind(a1.nr, i, j)]
    {
      assert RSub2Ind(a.nc, i, j) == CSub2Ind(a.nc, j, i);
      assert CSub2Ind(a1.nr, i, j) == RSub2Ind(a.nr, j, i);
    }
    r := Copied;
  }

  /** Dmat to Dmat: matcpy(a, lda, a1, lda1, n1, n2) copies `n1` rows of `n2` elements;
      the padding after each row and everything outside the block are unchanged. */
  method CopyDmat(a: Dmat, a1: Dmat) returns (r: Outcome)
    requires a.Valid() && a1.Valid() && a.a != a1.a
    modifies a.a
    ensures r == (if a.nr == a1.nr && a.nc == a1.nc then Copied else WrongShape)
    ensures r == Copied ==> forall i, j :: 0 <= i < a.nr && 0 <= j < a.nc ==>
      0 <= a.off + RSub2Ind(a.lda, i, j) < a.a.Length && 0 <= a1.off + RSub2Ind(a1.lda, i, j) < a1.a.Length &&
      a.a[a.off + RSub2Ind(a.lda, i, j)] == a1.a[a1.off + RSub2Ind(a1.lda, i, j)]
    ensures forall k :: 0 <= k < a.a.Length && !InBlock(k, a.off, a.lda, a.nr, a.nc) ==> a.a[k] == old(a.a[k])
    ensures r != Copied ==> unchanged(a.a)
  {
    if !(a.nr == a1.nr && a.nc == a1.nc) {
      return WrongShape;
    }
    MatCpy(a.a, a.off, a.lda, a1.a, a1.off, a1.lda, a.nr, a.nc);
    r := Copied;
  }

  /** Dcmat to Dcmat with the dimensions matcpy needs for a column-major block: `n2`
      columns of `n1` elements (see the Findings for the call as written). */
  method CopyDcmat(a: Dcmat, a1: Dcmat) returns (r: Outcome)
    requires a.Valid() && a1.Valid() && a.a != a1.a
    modifies a.a
    ensures r == (if a.nr == a1.nr && a.nc == a1.nc then Copied else WrongShape)
    ensures r == Copied ==> forall i, j :: 0 <= i < a.nr && 0 <= j < a.nc ==>
      0 <= a.off + CSub2Ind(a.lda, i, j) < a.a.Length && 0 <= a1.off + CSub2Ind(a1.lda, i, j) < a1.a.Length &&
      a.a[a.off + CSub2Ind(a.lda, i, j)] == a1.a[a1.off + CSub2Ind(a1.lda, i, j)]
    ensures forall k :: 0 <= k < a.a.Length && !InBlock(k, a.off, a.lda, a.nc, a.nr) ==> a.a[k] == old(a.a[k])
    ensures r != Copied ==> unchanged(a.a)
  {
    if !(a.nr == a1.nr && a.nc == a1.nc) {
      return WrongShape;
    }
    MatCpy(a.a, a.off, a.lda, a1.a, a1.off, a1.lda, a.nc, a.nr);
    forall i, j | 0 <= i < a.nr && 0 <= j < a.nc
      ensures CSub2Ind(a.lda, i, j) == RSub2Ind(a.lda, j, i) && CSub2Ind(a1.lda, i, j) == RSub2Ind(a1.lda, j, i)
    {
    }
    r := Copied;
  }

  /** The call as written, matcpy(a, lda, a1, lda1, n1, n2) on a 2 x 3 packed Dcmat
      (lda = 2): the 2 runs of 3 it copies write slots `lda*j + i` and never reach slot 5,
      which holds element (1, 2), so that element is not copied; 3 runs of 2 reach it. */
  lemma DcmatAsWrittenMisses()
    ensures CSub2Ind(2, 1, 2) == 5
    ensures forall j, i :: 0 <= j < 2 && 0 <= i < 3 ==> RSub2Ind(2, j, i) != 5
    ensures RSub2Ind(2, 2, 1) == 5
  {
  }

  /** The call as written on a 3 x 2 packed Dcmat (lda = 3): 3 runs of 2 at stride 3 need
      8 slots of a 6-slot buffer. */
  lemma DcmatAsWrittenOverruns()
    ensures BlockInBounds(0, 3, 2, 3, 6)
    ensures !BlockInBounds(0, 3, 3, 2, 6)
  {
  }
}
