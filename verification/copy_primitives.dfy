/** The pointer interface of SLISC/copy.h: fill and copy loops over raw buffers.
    A pointer is an array together with an offset into it; a count is a `nat`. */
module CopyPrimitives {

  import opened NonLinear
  import opened ScalarArith

  // ---------------------------------------------------------------------------
  // Strided walks

  /** `k` is one of the `n` slots `p, p + step, ..., p + (n-1)*step` that a loop
      `for (q = p; q < p + n*step; q += step)` visits. With `step <= 0` that loop
      stops at once and visits nothing. */
  predicate OnStride(k: int, p: int, n: nat, step: int)
  {
    step >= 1 && p <= k < p + n * step && (k - p) % step == 0
  }

  /** The walk of `n + 1` slots is the walk of `n` slots and the slot `p + n*step`. */
  lemma OnStrideNext(k: int, p: int, n: nat, step: int)
    requires step >= 1
    ensures OnStride(k, p, n + 1, step) <==> OnStride(k, p, n, step) || k == p + n * step
  {
    StrideStep(p, n, step);
    if k == p + n * step {
      OnStrideOfSlot(p, step, n);
    }
    if OnStride(k, p, n + 1, step) && k != p + n * step {
      var d := k - p;
      var t := d / step;
      SlotOfOnStride(d, step);
      if t > n {
        MulMonotone(step, n + 1, t);
      }
      if t < n {
        MulMonotone(step, t, n - 1);
      }
    }
  }

  /** The `i`-th slot of a walk is on the walk, and its position along it is `i`. */
  lemma OnStrideSlot(p: int, n: nat, step: int, i: nat)
    requires step >= 1 && i < n
    ensures OnStride(p + i * step, p, n, step)
    ensures (i * step) / step == i
  {
    OnStrideOfSlot(p, step, i);
    MulStrictMonotone(step, i, n);
  }

  /** A slot on a walk is the `(k-p)/step`-th one. */
  lemma OnStrideIndex(k: int, p: int, n: nat, step: int)
    requires OnStride(k, p, n, step)
    ensures 0 <= (k - p) / step < n
    ensures k == p + ((k - p) / step) * step
  {
    SlotOfOnStride(k - p, step);
    if (k - p) / step >= n {
      MulMonotone(step, n, (k - p) / step);
    }
  }

  /** The slots `p + i*step` for `i < n` lie between the first and the last one. */
  predicate StrideInBounds(p: int, n: nat, step: int, len: int)
  {
    n == 0 || (0 <= p < len && 0 <= p + (n - 1) * step < len)
  }

  lemma StrideSlotInBounds(p: int, n: nat, step: int, len: int, i: nat)
    requires StrideInBounds(p, n, step, len) && i < n
    ensures 0 <= p + i * step < len
  {
    if step >= 0 {
      MulMonotone(step, 0, i);
      MulMonotone(step, i, n - 1);
    } else {
      MulMonotone(-step, 0, i);
      MulMonotone(-step, i, n - 1);
    }
  }

  // ---------------------------------------------------------------------------
  // vecset

  /** vecset(v, val, n): the `n` slots from `p` take `val`; nothing else changes. */
  method VecSet(v: array<int>, p: nat, val: int, n: nat)
    requires p + n <= v.Length
    modifies v
    ensures forall k :: 0 <= k < v.Length ==> v[k] == (if p <= k < p + n then val else old(v[k]))
  {
    var q := p;
    while q < p + n
      invariant p <= q <= p + n
      invariant forall k :: 0 <= k < v.Length ==> v[k] == (if p <= k < q then val else old(v[k]))
    {
      v[q] := val;
      q := q + 1;
    }
  }

  /** vecset(v, val, n, step): exactly the slots of the walk take `val`. */
  method VecSetStrided(v: array<int>, p: nat, val: int, n: nat, step: int)
    requires step < 1 || StrideInBounds(p, n, step, v.Length)
    modifies v
    ensures forall k :: 0 <= k < v.Length ==> v[k] == (if OnStride(k, p, n, step) then val else old(v[k]))
  {
    var q := p;
    ghost var i: nat := 0;
    while q < p + n * step
      invariant step >= 1 ==> i <= n
      invariant q == p + i * step
      invariant step < 1 ==> i == 0
      invariant forall k :: 0 <= k < v.Length ==> v[k] == (if OnStride(k, p, i, step) then val else old(v[k]))
      decreases p + n * step - q
    {
      if i >= n {
        MulMonotone(step, n, i);
      }
      StrideSlotInBounds(p, n, step, v.Length, i);
      v[q] := val;
      forall k | 0 <= k < v.Length
        ensures OnStride(k, p, i + 1, step) <==> OnStride(k, p, i, step) || k == q
      {
        OnStrideNext(k, p, i, step);
      }
      StrideStep(p, i, step);
      q := q + step;
      i := i + 1;
    }
    if step >= 1 && i < n {
      MulMonotone(step, i, n);
    }
  }

  // ---------------------------------------------------------------------------
  // veccpy

  /** veccpy(v, v1, n), both the memcpy and the element loop: `v[p+i] = v1[p1+i]` for `i < n`. */
  method VecCpy(v: array<int>, p: nat, v1: array<int>, p1: nat, n: nat)
    requires v != v1
    requires p + n <= v.Length && p1 + n <= v1.Length
    modifies v
    ensures forall k :: 0 <= k < v.Length ==> v[k] == (if p <= k < p + n then v1[p1 + (k - p)] else old(v[k]))
  {
    for i := 0 to n
      invariant forall k :: 0 <= k < v.Length ==> v[k] == (if p <= k < p + i then v1[p1 + (k - p)] else old(v[k]))
    {
      v[p + i] := v1[p1 + i];
    }
  }

  /** veccpy(v, v1, step1, n): `v[p+i] = v1[p1 + i*step1]` for `i < n`; the source stride
      may be any integer. */
  method VecCpyFromStrided(v: array<int>, p: nat, v1: array<int>, p1: nat, step1: int, n: nat)
    requires v != v1
    requires p + n <= v.Length && StrideInBounds(p1, n, step1, v1.Length)
    modifies v
    ensures forall i :: 0 <= i < n ==> 0 <= p1 + i * step1 < v1.Length && v[p + i] == v1[p1 + i * step1]
    ensures forall k :: 0 <= k < v.Length && !(p <= k < p + n) ==> v[k] == old(v[k])
  {
    var q := p;
    var r := p1;
    while q < p + n
      invariant p <= q <= p + n
      invariant r == p1 + (q - p) * step1
      invariant forall i :: 0 <= i < q - p ==> 0 <= p1 + i * step1 < v1.Length && v[p + i] == v1[p1 + i * step1]
      invariant forall k :: 0 <= k < v.Length && !(p <= k < q) ==> v[k] == old(v[k])
    {
      StrideSlotInBounds(p1, n, step1, v1.Length, q - p);
      v[q] := v1[r];
      StrideStep(p1, q - p, step1);
      r := r + step1;
      q := q + 1;
    }
  }

  /** veccpy(v, step, v1, n): the `i`-th slot of the destination walk receives `v1[p1+i]`;
      every slot off the walk is unchanged. Its loop is the one of the strided copy below
      with a source stride of one; with `step <= 0` the loop stops at once. */
  method VecCpyToStrided(v: array<int>, p: nat, step: int, v1: array<int>, p1: nat, n: nat)
    requires v != v1
    requires (step < 1 || StrideInBounds(p, n, step, v.Length)) && p1 + n <= v1.Length
    modifies v
    ensures step >= 1 ==> forall i :: 0 <= i < n ==> 0 <= p + i * step < v.Length && v[p + i * step] == v1[p1 + i]
    ensures forall k :: 0 <= k < v.Length && !OnStride(k, p, n, step) ==> v[k] == old(v[k])
  {
    VecCpyStrided(v, p, step, v1, p1, 1, n);
  }

  /** The first `i` slots of the walk from `p` with stride `step` in `t` hold the first `i`
      slots of the walk from `p1` with stride `step1` in `src`. */
  ghost predicate WalkHolds(t: seq<int>, p: int, step: int, src: seq<int>, p1: int, step1: int, i: nat)
  {
    forall j :: 0 <= j < i ==>
      0 <= p + j * step < |t| && 0 <= p1 + j * step1 < |src| && t[p + j * step] == src[p1 + j * step1]
  }

  /** Off the first `i` slots of the walk, `t` is still `orig`. */
  ghost predicate OffWalkKept(t: seq<int>, orig: seq<int>, p: int, i: nat, step: int)
  {
    |t| == |orig| && forall k :: 0 <= k < |t| && !OnStride(k, p, i, step) ==> t[k] == orig[k]
  }

  /** Writing the `i`-th slot of the walk extends both facts to `i + 1` slots. */
  lemma WalkStep(pre: seq<int>, orig: seq<int>, src: seq<int>, p: int, step: int, p1: int, step1: int, i: nat)
    requires step >= 1 && 0 <= p + i * step < |pre| && 0 <= p1 + i * step1 < |src|
    requires WalkHolds(pre, p, step, src, p1, step1, i) && OffWalkKept(pre, orig, p, i, step)
    ensures WalkHolds(pre[p + i * step := src[p1 + i * step1]], p, step, src, p1, step1, i + 1)
    ensures OffWalkKept(pre[p + i * step := src[p1 + i * step1]], orig, p, i + 1, step)
  {
    var post := pre[p + i * step := src[p1 + i * step1]];
    forall j | 0 <= j < i + 1
      ensures 0 <= p + j * step < |post| && 0 <= p1 + j * step1 < |src| && post[p + j * step] == src[p1 + j * step1]
    {
      if j < i {
        MulStrictMonotone(step, j, i);
      }
    }
    forall k | 0 <= k < |post| && !OnStride(k, p, i + 1, step)
      ensures post[k] == orig[k]
    {
      OnStrideNext(k, p, i, step);
    }
  }

  /** veccpy(v, step, v1, step1, n): the `i`-th slot of the destination walk receives the
      `i`-th slot of the source walk; every slot off the destination walk is unchanged. */
  method VecCpyStrided(v: array<int>, p: nat, step: int, v1: array<int>, p1: nat, step1: int, n: nat)
    requires v != v1
    requires step < 1 || (StrideInBounds(p, n, step, v.Length) && StrideInBounds(p1, n, step1, v1.Length))
    modifies v
    ensures step >= 1 ==> forall i :: 0 <= i < n ==>
      0 <= p + i * step < v.Length && 0 <= p1 + i * step1 < v1.Length && v[p + i * step] == v1[p1 + i * step1]
    ensures forall k :: 0 <= k < v.Length && !OnStride(k, p, n, step) ==> v[k] == old(v[k])
  {
    if step >= 1 {
      for i := 0 to n
        invariant WalkHolds(v[..], p, step, v1[..], p1, step1, i)
        invariant OffWalkKept(v[..], old(v[..]), p, i, step)
      {
        StrideSlotInBounds(p, n, step, v.Length, i);
        StrideSlotInBounds(p1, n, step1, v1.Length, i);
        ghost var pre := v[..];
        WalkStep(pre, old(v[..]), v1[..], p, step, p1, step1, i);
        v[p + i * step] := v1[p1 + i * step1];
        assert v[..] == pre[p + i * step := v1[..][p1 + i * step1]];
      }
    }
  }

  // ---------------------------------------------------------------------------
  // matcpy

  /** `k` is one of the slots `p + lda*j + i`, `j < Nr`, `i < Nc`, of an `Nr x Nc` block
      stored row after row with leading dimension `lda >= Nc`. */
  predicate InBlock(k: int, p: int, lda: int, Nr: nat, Nc: nat)
  {
    1 <= Nc <= lda && p <= k && (k - p) / lda < Nr && (k - p) % lda < Nc
  }

  /** The block of `r + 1` rows is the block of `r` rows and the run of row `r`. */
  lemma InBlockNext(k: int, p: int, lda: int, r: nat, Nc: nat)
    requires 1 <= Nc <= lda
    ensures InBlock(k, p, lda, r + 1, Nc) <==>
      InBlock(k, p, lda, r, Nc) || p + RSub2Ind(lda, r, 0) <= k < p + RSub2Ind(lda, r, Nc)
  {
    var d := k - p;
    if p + RSub2Ind(lda, r, 0) <= k < p + RSub2Ind(lda, r, Nc) {
      LinearSplit(lda, d - lda * r, r);
    }
    if d >= 0 {
      assert d == lda * (d / lda) + d % lda;
    }
  }

  /** Slot `(j, i)` of the block is in the block, and the block gives it back its row and column. */
  lemma InBlockSlot(p: int, lda: int, Nr: nat, Nc: nat, j: nat, i: nat)
    requires 1 <= Nc <= lda && j < Nr && i < Nc
    ensures InBlock(p + RSub2Ind(lda, j, i), p, lda, Nr, Nc)
  {
    LinearSplit(lda, i, j);
  }

  /** Every slot of the block is slot `(j, i)` for the row and column its offset gives. */
  lemma InBlockCovered(k: int, p: int, lda: int, Nr: nat, Nc: nat)
    requires InBlock(k, p, lda, Nr, Nc)
    ensures k == p + RSub2Ind(lda, (k - p) / lda, (k - p) % lda)
  {
  }

  /** The padding `Nc <= t < lda` after each row is outside the block. */
  lemma PaddingOutsideBlock(p: int, lda: int, Nr: nat, Nc: nat, j: nat, t: int)
    requires 1 <= Nc <= t < lda && j < Nr
    ensures !InBlock(p + RSub2Ind(lda, j, t), p, lda, Nr, Nc)
  {
    LinearSplit(lda, t, j);
  }

  /** Row `r` starts past the last slot of every earlier row. */
  lemma EarlierRows(lda: int, r: nat, Nc: nat)
    requires 1 <= Nc <= lda
    ensures forall j, i :: 0 <= j < r && 0 <= i < Nc ==> RSub2Ind(lda, j, i) < RSub2Ind(lda, r, 0)
  {
    forall j, i | 0 <= j < r && 0 <= i < Nc
      ensures RSub2Ind(lda, j, i) < RSub2Ind(lda, r, 0)
    {
      MulMonotone(lda, j + 1, r);
    }
  }

  /** The rows of an `Nr x Nc` block with leading dimension `lda` fit in a buffer of `len`. */
  predicate BlockInBounds(p: int, lda: int, Nr: nat, Nc: nat, len: int)
  {
    Nr == 0 || Nc == 0 || (Nc <= lda && 0 <= p && p + RSub2Ind(lda, Nr - 1, Nc) <= len)
  }

  lemma RowInBounds(p: int, lda: int, Nr: nat, Nc: nat, len: int, r: nat)
    requires BlockInBounds(p, lda, Nr, Nc, len) && r < Nr && Nc >= 1
    ensures 0 <= p + RSub2Ind(lda, r, 0) && p + RSub2Ind(lda, r, Nc) <= len
  {
    MulMonotone(lda, 0, r);
    MulMonotone(lda, r, Nr - 1);
  }

  /** matcpy: row `j < Nr` of the source block, `Nc` elements from `p1 + j*lda1`, is copied to
      `p + j*lda`; the padding between rows and everything outside the block are unchanged. */
  method MatCpy(v: array<int>, p: nat, lda: nat, v1: array<int>, p1: nat, lda1: nat, Nr: nat, Nc: nat)
    requires v != v1
    requires BlockInBounds(p, lda, Nr, Nc, v.Length)
    requires Nr == 0 || Nc == 0 || p1 + RSub2Ind(lda1, Nr - 1, Nc) <= v1.Length
    modifies v
    ensures forall j, i :: 0 <= j < Nr && 0 <= i < Nc ==>
      0 <= p + RSub2Ind(lda, j, i) < v.Length && 0 <= p1 + RSub2Ind(lda1, j, i) < v1.Length &&
      v[p + RSub2Ind(lda, j, i)] == v1[p1 + RSub2Ind(lda1, j, i)]
    ensures forall k :: 0 <= k < v.Length && !InBlock(k, p, lda, Nr, Nc) ==> v[k] == old(v[k])
  {
    if Nc == 0 {
      return;
    }
    for r := 0 to Nr
      invariant forall j, i :: 0 <= j < r && 0 <= i < Nc ==>
        0 <= p + RSub2Ind(lda, j, i) < v.Length && 0 <= p1 + RSub2Ind(lda1, j, i) < v1.Length &&
        v[p + RSub2Ind(lda, j, i)] == v1[p1 + RSub2Ind(lda1, j, i)]
      invariant forall k :: 0 <= k < v.Length && !InBlock(k, p, lda, r, Nc) ==> v[k] == old(v[k])
    {
      RowInBounds(p, lda, Nr, Nc, v.Length, r);
      SourceRowInBounds(p1, lda1, Nr, Nc, v1.Length, r);
      EarlierRows(lda, r, Nc);
      var row := p + RSub2Ind(lda, r, 0);
      var row1 := p1 + RSub2Ind(lda1, r, 0);
      ghost var pre := v[..];
      VecCpy(v, row, v1, row1, Nc);
      forall j, i | 0 <= j <= r && 0 <= i < Nc
        ensures 0 <= p + RSub2Ind(lda, j, i) < v.Length && 0 <= p1 + RSub2Ind(lda1, j, i) < v1.Length
        ensures v[p + RSub2Ind(lda, j, i)] == v1[p1 + RSub2Ind(lda1, j, i)]
      {
        if j == r {
          assert p + RSub2Ind(lda, j, i) == row + i && p1 + RSub2Ind(lda1, j, i) == row1 + i;
        } else {
          assert v[p + RSub2Ind(lda, j, i)] == pre[p + RSub2Ind(lda, j, i)];
        }
      }
      forall k | 0 <= k < v.Length && !InBlock(k, p, lda, r + 1, Nc)
        ensures v[k] == old(v[k])
      {
        InBlockNext(k, p, lda, r, Nc);
        assert v[k] == pre[k];
      }
    }
  }

  lemma SourceRowInBounds(p1: int, lda1: int, Nr: nat, Nc: nat, len: int, r: nat)
    requires Nc >= 1 && r < Nr && lda1 >= 0 && p1 >= 0
    requires p1 + RSub2Ind(lda1, Nr - 1, Nc) <= len
    ensures 0 <= p1 + RSub2Ind(lda1, r, 0) && p1 + RSub2Ind(lda1, r, Nc) <= len
  {
    MulMonotone(lda1, 0, r);
    MulMonotone(lda1, r, Nr - 1);
  }

  // ---------------------------------------------------------------------------
  // matcpy_2_major

  /** Two slots of a column-major `Nr`-row layout coincide only for the same row and column. */
  lemma CSub2IndInjective(Nr: nat, Nc: nat, i: nat, j: nat, i': nat, j': nat)
    requires i < Nr && j < Nc && i' < Nr && j' < Nc
    requires CSub2Ind(Nr, i, j) == CSub2Ind(Nr, i', j')
    ensures i == i' && j == j'
  {
    CSub2IndBijective(Nr, Nc, i, j);
    CSub2IndBijective(Nr, Nc, i', j');
  }

  /** The slots of an `N2 x N1` matrix, in either layout, lie below `N1*N2`. */
  lemma LayoutBounds(N1: nat, N2: nat, i: nat, j: nat)
    requires i < N2 && j < N1
    ensures 0 <= CSub2Ind(N2, i, j) < N1 * N2 && 0 <= RSub2Ind(N1, i, j) < N1 * N2
  {
    CSub2IndBijective(N2, N1, i, j);
    RSub2IndBijective(N2, N1, i, j);
    MulComm(N1, N2);
  }

  /** matcpy_2_major, with the destination stride its callers need (see the Findings): the
      `N2 x N1` matrix stored row by row at `a1` is stored column by column at `a`, so
      element `(i, j)` moves from `a1[q1 + i*N1 + j]` to `a[q + i + N2*j]`. */
  method MatCpy2Major(a: array<int>, q: nat, a1: array<int>, q1: nat, N1: nat, N2: nat)
    requires a != a1
    requires q + N1 * N2 <= a.Length && q1 + N1 * N2 <= a1.Length
    modifies a
    ensures forall i, j :: 0 <= i < N2 && 0 <= j < N1 ==>
      0 <= q + CSub2Ind(N2, i, j) < a.Length && 0 <= q1 + RSub2Ind(N1, i, j) < a1.Length &&
      a[q + CSub2Ind(N2, i, j)] == a1[q1 + RSub2Ind(N1, i, j)]
    ensures forall k :: 0 <= k < a.Length && !(q <= k < q + N1 * N2) ==> a[k] == old(a[k])
    ensures a[q..q + N1 * N2] == Transposed(a1[q1..q1 + N1 * N2], N1, N2)
  {
    var k1 := 0;
    for i2 := 0 to N2
      invariant k1 == RSub2Ind(N1, i2, 0)
      invariant forall i, j :: 0 <= i < i2 && 0 <= j < N1 ==>
        0 <= q + CSub2Ind(N2, i, j) < a.Length && 0 <= q1 + RSub2Ind(N1, i, j) < a1.Length &&
        a[q + CSub2Ind(N2, i, j)] == a1[q1 + RSub2Ind(N1, i, j)]
      invariant forall k :: 0 <= k < a.Length && !(q <= k < q + N1 * N2) ==> a[k] == old(a[k])
    {
      ghost var pre := a[..];
      CopyRowToColumn(a, q, a1, q1, N1, N2, i2, k1);
      forall i, j | 0 <= i < i2 && 0 <= j < N1
        ensures 0 <= q + CSub2Ind(N2, i, j) < a.Length && 0 <= q1 + RSub2Ind(N1, i, j) < a1.Length
        ensures a[q + CSub2Ind(N2, i, j)] == a1[q1 + RSub2Ind(N1, i, j)]
      {
        CSub2IndBijective(N2, N1, i, j);
        assert a[q + CSub2Ind(N2, i, j)] == pre[q + CSub2Ind(N2, i, j)];
      }
      RowStep(N1, i2);
      k1 := k1 + N1;
    }
    ghost var t, s := a[q..q + N1 * N2], a1[q1..q1 + N1 * N2];
    forall i, j | 0 <= i < N2 && 0 <= j < N1
      ensures 0 <= CSub2Ind(N2, i, j) < |t| && 0 <= RSub2Ind(N1, i, j) < |s|
      ensures t[CSub2Ind(N2, i, j)] == s[RSub2Ind(N1, i, j)]
    {
      LayoutBounds(N1, N2, i, j);
    }
    TransposedSlice(t, s, N1, N2);
  }

  /** One pass of the outer loop of matcpy_2_major: row `i2` of the source, read from
      `k1 = i2*N1` on, becomes column `i2` of the destination, written from `i2` on with
      stride `N2`; no other slot changes. */
  method CopyRowToColumn(a: array<int>, q: nat, a1: array<int>, q1: nat, N1: nat, N2: nat, i2: nat, k1: int)
    requires a != a1
    requires q + N1 * N2 <= a.Length && q1 + N1 * N2 <= a1.Length
    requires i2 < N2 && k1 == RSub2Ind(N1, i2, 0)
    modifies a
    ensures forall j :: 0 <= j < N1 ==>
      0 <= q + CSub2Ind(N2, i2, j) < a.Length && 0 <= q1 + RSub2Ind(N1, i2, j) < a1.Length &&
      a[q + CSub2Ind(N2, i2, j)] == a1[q1 + RSub2Ind(N1, i2, j)]
    ensures forall k :: 0 <= k < a.Length && !(q <= k < q + N1 * N2 && (k - q) % N2 == i2) ==> a[k] == old(a[k])
  {
    var k := i2;
    var k1 := k1;
    for i1 := 0 to N1
      invariant k == CSub2Ind(N2, i2, i1) && k1 == RSub2Ind(N1, i2, i1)
      invariant forall j :: 0 <= j < i1 ==>
        0 <= q + CSub2Ind(N2, i2, j) < a.Length && 0 <= q1 + RSub2Ind(N1, i2, j) < a1.Length &&
        a[q + CSub2Ind(N2, i2, j)] == a1[q1 + RSub2Ind(N1, i2, j)]
      invariant forall k :: 0 <= k < a.Length && !(q <= k < q + N1 * N2 && (k - q) % N2 == i2) ==> a[k] == old(a[k])
    {
      LayoutBounds(N1, N2, i2, i1);
      CSub2IndBijective(N2, N1, i2, i1);
      ColumnSlotsBelow(N2, i2, i1);
      a[q + k] := a1[q1 + k1];
      MulDistributes(N2, i1, 1);
      k := k + N2;
      k1 := k1 + 1;
    }
  }

  /** Down a column, slot `(i, j)` lies below slot `(i, j')` for `j < j'`. */
  lemma ColumnSlotsBelow(Nr: nat, i: nat, j': nat)
    ensures forall j :: 0 <= j < j' ==> CSub2Ind(Nr, i, j) < CSub2Ind(Nr, i, j') || Nr == 0
  {
    forall j | 0 <= j < j' && Nr > 0
      ensures CSub2Ind(Nr, i, j) < CSub2Ind(Nr, i, j')
    {
      MulStrictMonotone(Nr, j, j');
    }
  }

  /** The matrix stored row by row in `s` as `N2 x N1`, stored column by column. */
  function Transposed(s: seq<int>, N1: nat, N2: nat): (t: seq<int>)
    requires |s| == N1 * N2
    ensures |t| == N1 * N2
  {
    seq(N1 * N2, k requires 0 <= k < N1 * N2 => s[TransposedSource(N1, N2, k)])
  }

  /** The source offset of destination slot `k`: row `k % N2`, column `k / N2`. */
  function TransposedSource(N1: nat, N2: nat, k: nat): (r: nat)
    requires k < N1 * N2
    ensures r < N1 * N2
    ensures N2 > 0 && r == RSub2Ind(N1, k % N2, k / N2)
  {
    MulComm(N1, N2);
    CSub2IndOnto(N2, N1, k);
    LayoutBounds(N1, N2, k % N2, k / N2);
    RSub2Ind(N1, k % N2, k / N2)
  }

  /** Element `(i, j)` of the transposed layout is element `(i, j)` of the source. */
  lemma TransposedAt(s: seq<int>, N1: nat, N2: nat, i: nat, j: nat)
    requires |s| == N1 * N2 && i < N2 && j < N1
    ensures CSub2Ind(N2, i, j) < N1 * N2 && RSub2Ind(N1, i, j) < N1 * N2
    ensures Transposed(s, N1, N2)[CSub2Ind(N2, i, j)] == s[RSub2Ind(N1, i, j)]
  {
    LayoutBounds(N1, N2, i, j);
    CSub2IndBijective(N2, N1, i, j);
  }

  lemma TransposedSlice(t: seq<int>, s: seq<int>, N1: nat, N2: nat)
    requires |t| == N1 * N2 && |s| == N1 * N2
    requires forall i, j :: 0 <= i < N2 && 0 <= j < N1 ==>
      0 <= CSub2Ind(N2, i, j) < |t| && 0 <= RSub2Ind(N1, i, j) < |s| &&
      t[CSub2Ind(N2, i, j)] == s[RSub2Ind(N1, i, j)]
    ensures t == Transposed(s, N1, N2)
  {
    forall k | 0 <= k < N1 * N2
      ensures t[k] == Transposed(s, N1, N2)[k]
    {
      MulComm(N1, N2);
      CSub2IndOnto(N2, N1, k);
      TransposedAt(s, N1, N2, k % N2, k / N2);
    }
  }

  /** Transposing back, with the dimensions exchanged, restores the layout; for a square
      matrix, applying matcpy_2_major twice is the identity. */
  lemma TransposedInvolution(s: seq<int>, N1: nat, N2: nat)
    requires |s| == N1 * N2
    ensures |Transposed(s, N1, N2)| == N2 * N1
    ensures Transposed(Transposed(s, N1, N2), N2, N1) == s
  {
    MulComm(N1, N2);
    var t := Transposed(s, N1, N2);
    forall k | 0 <= k < N1 * N2
      ensures Transposed(t, N2, N1)[k] == s[k]
    {
      CSub2IndOnto(N1, N2, k);
      var i, j := k % N1, k / N1;
      TransposedAt(t, N2, N1, i, j);
      TransposedAt(s, N1, N2, j, i);
      LinearSplit(N2, j, i);
    }
  }

  // The loop of matcpy_2_major as written: for i2 < N2, for i1 < N1, the destination
  // offset k starts at i2 and grows by N1, the source offset k1 counts up from 0.

  /** The (destination, source) offsets the loop as written assigns, in order. */
  function AsWrittenWrites(N1: nat, N2: nat): (w: seq<(int, int)>)
    ensures |w| == N1 * N2
  {
    if N2 == 0 then [] else AsWrittenWrites(N1, N2 - 1) + AsWrittenRow(N1, N2 - 1, N1)
  }

  /** The first `n` assignments of the inner loop for row `i2`. */
  function AsWrittenRow(N1: nat, i2: nat, n: nat): (w: seq<(int, int)>)
    ensures |w| == n
  {
    if n == 0 then [] else AsWrittenRow(N1, i2, n - 1) + [(i2 + N1 * (n - 1), i2 * N1 + (n - 1))]
  }

  lemma {:induction false} AsWrittenRowAt(N1: nat, i2: nat, n: nat, i1: nat)
    requires i1 < n
    ensures AsWrittenRow(N1, i2, n)[i1] == (CSub2Ind(N1, i2, i1), RSub2Ind(N1, i2, i1))
    decreases n
  {
    if i1 < n - 1 {
      AsWrittenRowAt(N1, i2, n - 1, i1);
    }
  }

  /** The `t`-th assignment reads source offset `t`, element `(i2, i1)`, and writes it to
      `i2 + N1*i1`: the stride is `N1` although the rows of the destination are `N2` long. */
  lemma {:induction false} AsWrittenAt(N1: nat, N2: nat, i2: nat, i1: nat)
    requires i2 < N2 && i1 < N1
    ensures RSub2Ind(N1, i2, i1) < N1 * N2
    ensures AsWrittenWrites(N1, N2)[RSub2Ind(N1, i2, i1)] == (CSub2Ind(N1, i2, i1), RSub2Ind(N1, i2, i1))
    decreases N2
  {
    LayoutBounds(N1, N2, i2, i1);
    if i2 < N2 - 1 {
      AsWrittenAt(N1, N2 - 1, i2, i1);
    } else {
      AsWrittenRowAt(N1, i2, N1, i1);
      MulComm(N1, N2 - 1);
    }
  }

  /** For a square matrix the loop as written performs the assignments of MatCpy2Major. */
  lemma AsWrittenSquare(N: nat, i: nat, j: nat)
    requires i < N && j < N
    ensures RSub2Ind(N, i, j) < N * N
    ensures AsWrittenWrites(N, N)[RSub2Ind(N, i, j)] == (CSub2Ind(N, i, j), RSub2Ind(N, i, j))
  {
    AsWrittenAt(N, N, i, j);
  }

  /** N1 = 2, N2 = 3 (a 3 x 2 matrix): destination slot 2 is written twice and slot 5 never. */
  lemma AsWrittenCollides()
    ensures AsWrittenWrites(2, 3)[1].0 == 2 && AsWrittenWrites(2, 3)[4].0 == 2
    ensures forall t :: 0 <= t < 6 ==> AsWrittenWrites(2, 3)[t].0 != 5
  {
    assert AsWrittenWrites(2, 3) == [(0, 0), (2, 1), (1, 2), (3, 3), (2, 4), (4, 5)];
  }

  /** N1 = 3, N2 = 2 (a 2 x 3 matrix): the last assignment writes slot 7 of a 6-slot buffer. */
  lemma AsWrittenOverruns()
    ensures AsWrittenWrites(3, 2)[5] == (7, 5)
  {
    assert AsWrittenWrites(3, 2) == [(0, 0), (3, 1), (6, 2), (1, 3), (4, 4), (7, 5)];
  }
}
