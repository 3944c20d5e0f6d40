# SLISC integer core in Dafny

A model of the integer and index-arithmetic core of SLISC. SLISC is a header-only C++ library of vector and matrix containers. The model covers four parts.

- **Buffer primitives and copy dispatch** (`copy.h`):
  - `vecset` fills a buffer, contiguously or at a stride.
  - The four `veccpy` forms copy contiguously or with a stride on either side.
  - `matcpy` copies blocks with leading dimensions.
  - `matcpy_2_major` changes the layout between row-major and column-major.
  - The container `copy` overloads check the shape, then call one primitive.
  - The sparse copies are MatCoo to MatCoo, and the expansion of an overlapping-block matrix (`CmatObd`) into coordinate format.
- **In-place container algorithms** (`arithmetic.h`):
  - shape comparison and `==`;
  - `sum`, `count`, `max` (with and without an index) and `cumsum`;
  - `flip`, the cyclic `shift` of rows or columns, and `diagonals`/`idiagonals`;
  - the element-wise compound and three-operand operators;
  - `outprod` and `mul_par`.
- **Scalar and index utilities** (`scalar_arith.h`):
  - `MIN`, `MAX`, `SQR`, `ABS2` and `SIGN`;
  - `is_equiv` and `to_num`;
  - `isodd` and `ispow2` on two's-complement words;
  - the positive modulus `mod`;
  - `csub2ind` and `rsub2ind`.
- **Fixed-size containers** (`fixsize.h`): `FixVec` and the column-major `FixCmat`.

Elements are unbounded `int`. The two-argument `SIGN` works on `real`. C++ `/` and `%` truncate toward zero and are modelled as `CDiv` and `CRem`; Dafny's own operators are Euclidean.

A `Matrix` is a flat row-major buffer with `nr` rows and `nc` columns. Element `(i, j)` sits at `rsub2ind(nc, i, j)`. A `Cmat` is column-major, with `(i, j)` at `csub2ind(nr, i, j)`.

Containers whose buffers the code changes in place are classes with an `array<int>` field. Their methods name what they modify and state the new contents in terms of a specification function on sequences. The properties of those functions are proved as lemmas:
- involution of `flip`;
- `shift(n)` undone by `shift(-n)`;
- `idiagonals` undoing `diagonals`;
- the transpose round trip;
- the rank-one structure of the outer product;
- linearity of the vector-matrix product.

Source of the files:
- `nonlinear.dfy`: multiplication and division facts behind the index arithmetic.
- `twos_complement.dfy`: bit patterns of `w`-bit words and their bitwise `&`.
- `scalar_arith.dfy`: the scalar utilities, C++ `/` and `%`, and the linear index maps.
- `copy_primitives.dfy`: the pointer interface of `copy.h`.
- `containers.dfy`: the container classes. Their own headers are not part of this model.
- `container_copy.dfy` and `coo.dfy`: the container interface of `copy.h`.
- `shape.dfy`, `reductions.dfy`, `rearrange.dfy` and `elementwise.dfy`: `arithmetic.h`.
- `fixsize.dfy`: `fixsize.h`.

Every diagnostic guarded by `SLS_CHECK_SHAPE`, `_CHECKBOUNDS_` or `SLS_CHECK_BOUNDS` becomes one of two things:
- an error outcome, where the caller can observe it: the container copies, the COO copies, and the FixVec/FixCmat subscripts;
- a precondition, where the library would otherwise go on to read outside a buffer: the element-wise shape checks and the size check of `mul_par`.

## Model

| member | source | states |
|---|---|---|
| ScalarArith.Min | SLISC/scalar_arith.h:11-13 | the result is at most both arguments and equals one of them |
| ScalarArith.Max | SLISC/scalar_arith.h:15-17 | the result is at least both arguments and equals one of them |
| ScalarArith.Sqr | SLISC/scalar_arith.h:19-20 | `SQR(a)` is never negative, and it is zero exactly when `a` is |
| ScalarArith.Abs2 | SLISC/scalar_arith.h:22-23 | `ABS2` on an arithmetic type equals `SQR` and is never negative |
| ScalarArith.Sign1 | SLISC/scalar_arith.h:28-32 | one-argument `SIGN`: 1, -1 or 0 according to the sign of the argument |
| ScalarArith.Sign | SLISC/scalar_arith.h:34-44 | two-argument `SIGN`: `|a|` when `b >= 0`, `-|a|` otherwise |
| ScalarArith.IsEquivIsIdentity | SLISC/scalar_arith.h:50-59 | `is_equiv` is false when the static types differ, and otherwise holds exactly when the values are equal |
| ScalarArith.EqualButNotEquiv | SLISC/scalar_arith.h:50-59 | values that compare equal with `==` can still be non-equivalent, because their types differ |
| ScalarArith.ToNum | SLISC/scalar_arith.h:61-66 | `to_num` maps Bool, Char and Uchar to an Int of the same value, and returns any other scalar unchanged |
| ScalarArith.ToNumIdempotent | SLISC/scalar_arith.h:61-66 | applying `to_num` twice is applying it once |
| ScalarArith.CRem | SLISC/scalar_arith.h:78-79 | C++ `%`: smaller in magnitude than the divisor, with the sign of the dividend, and congruent to the dividend |
| ScalarArith.CDiv | SLISC/arithmetic.h:873-875 | C++ `/`: quotient times divisor plus C++ remainder is the dividend |
| ScalarArith.ModPositive | SLISC/scalar_arith.h:77-79 | for `n > 0`, `mod(i, n)` lies in `[0, n)`, is congruent to `i`, and equals `i % n` when `i >= 0` |
| ScalarArith.ModNegative | SLISC/scalar_arith.h:77-79 | for `n < 0` the result lies in `(n, 0]` |
| ScalarArith.ModAsWrittenAgrees | SLISC/scalar_arith.h:77-79 | when the sum `i % n + n` fits in the word, the code as written computes the positive modulus |
| ScalarArith.ModAsWrittenOverflows | SLISC/scalar_arith.h:77-79 | `mod(LONG_MAX-1, LONG_MAX)` overflows in the sum (undefined behaviour; -3 under two's complement wrap-around), although the positive modulus is `LONG_MAX-1` |
| ScalarArith.IsOddSpec | SLISC/scalar_arith.h:69-71 | `n & 1` is nonzero exactly for odd `n`, negative `n` included, on a word of any width |
| ScalarArith.IsPow2Spec | SLISC/scalar_arith.h:73-75 | `(n & (n-1)) == 0` holds exactly for 0 and the powers of two, and, when `n - 1` wraps, for the most negative word |
| ScalarArith.IsPow2Long | SLISC/scalar_arith.h:75 | for `Long`, the only exception to "0 or a power of two" is `LONG_MIN`, where `n - 1` overflows (undefined behaviour; the model wraps) |
| ScalarArith.CSub2IndBijective | SLISC/scalar_arith.h:83-84 | `i + Nr*j` maps `[0,Nr) x [0,Nc)` into `[0, Nr*Nc)`, and remainder and quotient by `Nr` recover `(i, j)` |
| ScalarArith.CSub2IndOnto | SLISC/scalar_arith.h:83-84 | every index of `[0, Nr*Nc)` is the column-major index of some in-range pair |
| ScalarArith.RSub2IndBijective | SLISC/scalar_arith.h:86-87 | `Nc*i + j` maps `[0,Nr) x [0,Nc)` into `[0, Nr*Nc)`, and quotient and remainder by `Nc` recover `(i, j)` |
| ScalarArith.RSub2IndOnto | SLISC/scalar_arith.h:86-87 | every index of `[0, Nr*Nc)` is the row-major index of some in-range pair |
| ScalarArith.EqualByEntries | SLISC/scalar_arith.h:86-87 | two `Nr x Nc` row-major buffers that agree at every `(i, j)` are equal |
| TwosComplement.AndOne | SLISC/scalar_arith.h:70-71 | `x & 1` is the low bit of `x` |
| TwosComplement.AndPredecessor | SLISC/scalar_arith.h:74-75 | for `m >= 1`, `m & (m-1)` is zero exactly when `m` is a power of two |
| TwosComplement.EncParity | SLISC/scalar_arith.h:70-71 | the two's-complement pattern of `n` has the parity of `n` |
| CopyPrimitives.VecSet | SLISC/copy.h:13-19 | the `n` slots from the start take `val`, and every other slot is unchanged |
| CopyPrimitives.VecSetStrided | SLISC/copy.h:21-27 | for `step >= 1`, exactly the slots `k*step` with `k < n` take `val`, and the slots between strides are unchanged |
| CopyPrimitives.VecCpy | SLISC/copy.h:29-40 | `v[i] = v1[i]` for `i < n`; nothing else in `v` changes, and the source is untouched |
| CopyPrimitives.VecCpyFromStrided | SLISC/copy.h:42-49 | `v[i] = v1[i*step1]` for `i < n`; the rest of `v` is unchanged |
| CopyPrimitives.VecCpyToStrided | SLISC/copy.h:51-58 | `v[i*step] = v1[i]` for `i < n`; the slots off the destination walk are unchanged |
| CopyPrimitives.VecCpyStrided | SLISC/copy.h:60-68 | `v[i*step] = v1[i*step1]` for `i < n`; the slots off the destination walk are unchanged |
| CopyPrimitives.MatCpy | SLISC/copy.h:70-77 | `v[j*lda + i] = v1[j*lda1 + i]` for `j < Nr`, `i < Nc`; padding and everything outside the block are unchanged |
| CopyPrimitives.PaddingOutsideBlock | SLISC/copy.h:70-77 | the padding slots `Nc <= t < lda` after each row are never part of the block that is copied |
| CopyPrimitives.MatCpy2Major | SLISC/copy.h:80-99 | the `N2 x N1` row-major source is stored column by column: `(i, j)` moves from `i*N1 + j` to `i + N2*j`, and nothing outside the block changes |
| CopyPrimitives.TransposedAt | SLISC/copy.h:83-87 | element `(i, j)` of the relaid-out buffer is element `(i, j)` of the source |
| CopyPrimitives.TransposedInvolution | SLISC/copy.h:83-87 | changing the layout and changing it back, with the dimensions exchanged, restores the buffer |
| CopyPrimitives.AsWrittenSquare | SLISC/copy.h:89-99 | for a square matrix, the loop as written performs exactly the assignments of the layout change |
| CopyPrimitives.AsWrittenCollides | SLISC/copy.h:89-99 | with `N1 = 2, N2 = 3` the loop as written writes slot 2 twice and never writes slot 5 |
| CopyPrimitives.AsWrittenOverruns | SLISC/copy.h:89-99 | with `N1 = 3, N2 = 2` the loop as written writes slot 7 of a 6-slot buffer |
| ContainerCopy.CopyVector | SLISC/copy.h:105-117 | mismatched sizes report "wrong shape"; otherwise the destination equals the source and keeps its size |
| ContainerCopy.CopyMatrix | SLISC/copy.h:105-117 | a shape mismatch is reported; otherwise the row-major buffer is copied and the shape is unchanged |
| ContainerCopy.CopyCmat | SLISC/copy.h:105-117 | the same for column-major matrices |
| ContainerCopy.CopyDvector | SLISC/copy.h:119-130 | strided to strided: element `i` of the view is copied, and slots of the buffer off the view are unchanged; on a size mismatch nothing is written |
| ContainerCopy.CopyVectorFromDvector | SLISC/copy.h:132-143 | into a dense vector from a strided view: `v[i] = v1[off1 + i*step1]` |
| ContainerCopy.CopyDvectorFromVector | SLISC/copy.h:145-156 | into a strided view from a dense vector: `v[off + i*step] = v1[i]`, slots off the view are unchanged, and on a size mismatch nothing is written |
| ContainerCopy.CopyCmatFromMatrix | SLISC/copy.h:158-172 | row-major into column-major: element `(i, j)` keeps its value, and a shape mismatch is reported |
| ContainerCopy.CopyMatrixFromCmat | SLISC/copy.h:158-172 | column-major into row-major: element `(i, j)` keeps its value |
| ContainerCopy.CopyDmat | SLISC/copy.h:174-186 | Dmat blocks with leading dimensions: element `(i, j)` is copied, and padding is unchanged; on a shape mismatch nothing is written |
| ContainerCopy.CopyDcmat | SLISC/copy.h:174-186 | Dcmat blocks, with the run length and count a column-major block needs: element `(i, j)` is copied, padding is unchanged, and on a shape mismatch nothing is written |
| ContainerCopy.DcmatAsWrittenMisses | SLISC/copy.h:185 | the call as written, on a packed 2 x 3 Dcmat, writes slots `2*j + i` for `j < 2, i < 3`, none of which is slot 5, which holds element `(1, 2)`; 3 runs of 2 reach it |
| ContainerCopy.DcmatAsWrittenOverruns | SLISC/copy.h:185 | the call as written, on a packed 3 x 2 Dcmat, needs 8 slots of a 6-slot buffer |
| Coo.MatCoo.Push | SLISC/copy.h:244 | `push` appends one triple while capacity remains; otherwise it reports failure and changes nothing |
| Coo.MatCoo.Resize | SLISC/copy.h:219-220 | `resize(Nnz)` within the capacity sets the count of stored triples and keeps the shape |
| Coo.CopyCoo | SLISC/copy.h:207-224 | it reports a shape mismatch, then insufficient capacity, then self-assignment; otherwise `nnz` and the first `nnz` values, rows and columns equal the source's |
| Coo.CopyFromObd | SLISC/copy.h:226-249 | with the shape and capacity checks passed and room for every kept value, it succeeds and the target holds its old triples followed by `ObdEntries`, the kept stored values in block, column, row order; a shape mismatch leaves the target unchanged; it fails after the checks only with the capacity used up, leaving a prefix of the pushes |
| Coo.PushBlock | SLISC/copy.h:239-247 | the column loop of one block pushes that block's kept triples in order; it stops early, with a strict prefix of them, only when the capacity is used up |
| Coo.PushColumn | SLISC/copy.h:240-246 | the row loop of one column pushes that column's kept triples in order; it stops early, with a strict prefix of them, only when the capacity is used up |
| Coo.ObdEntriesExactly | SLISC/copy.h:238-246 | a triple is pushed exactly when it is the triple of a stored value that is neither the block's `(N1, N1)` corner nor off the matrix |
| Coo.ObdInRange | SLISC/copy.h:241-244 | no pushed row or column is negative or equal to `N`; when the blocks fit in the matrix, all lie in `[0, N)` |
| Coo.KeptDistinct | SLISC/copy.h:241-243 | two kept stored values never land on the same `(row, col)` |
| Coo.ObdCoordinatesUnique | SLISC/copy.h:241-244 | any two positions of the expansion hold triples that differ in row or column: no element is pushed twice |
| Shape.ShapeCmpVector | SLISC/arithmetic.h:53-55 | `shape_cmp` of two vectors holds exactly when their buffers have the same length |
| Shape.ShapeCmpMatrix | SLISC/arithmetic.h:57-59 | two matrices of the same shape have buffers of the same length |
| Shape.ShapeCmpMatrixCoo | SLISC/arithmetic.h:61-67 | `shape_cmp` of a dense matrix and a MatCoo, in either order: when the shapes agree, the dense buffer has `nr*nc` slots, one for every element the MatCoo can address |
| Shape.ShapeCmpMat3d | SLISC/arithmetic.h:77-79 | two Mat3d of the same shape have buffers of the same length |
| Shape.EqualVector | SLISC/arithmetic.h:81-83 | `==` holds exactly when the element sequences are equal |
| Shape.EqualMatrix | SLISC/arithmetic.h:85-87 | `==` holds exactly when the shapes and the elements agree |
| Shape.EqualMat3d | SLISC/arithmetic.h:89-91 | the same for three-dimensional arrays |
| Shape.NotEqualVector | SLISC/arithmetic.h:93-95 | `!=` is the negation of `==` |
| Shape.NotEqualMatrix | SLISC/arithmetic.h:97-99 | `!=` is the negation of `==` |
| Shape.NotEqualMat3d | SLISC/arithmetic.h:101-103 | `!=` is the negation of `==` |
| Shape.EqualScalar | SLISC/arithmetic.h:105-115 | a container equals a scalar exactly when every element does, so an empty container equals any scalar |
| Shape.NotEqualScalar | SLISC/arithmetic.h:117-127 | `!=` a scalar holds exactly when some element differs |
| Reductions.TotalAppend | SLISC/arithmetic.h:129-137 | the total of a concatenation is the sum of the totals |
| Reductions.Sum | SLISC/arithmetic.h:129-137 | `sum` returns the left-to-right total of all elements |
| Reductions.TruesExtremes | SLISC/arithmetic.h:139-146 | the count lies in `[0, size]`; it is `size` exactly when all flags are true, and 0 exactly when none is |
| Reductions.Count | SLISC/arithmetic.h:139-146 | `count` returns the number of true entries |
| Reductions.MaxOf | SLISC/arithmetic.h:148-157 | the maximum is an element, and no element exceeds it |
| Reductions.FirstMaxIndex | SLISC/arithmetic.h:148-157 | the strict comparison keeps the first position of the maximum |
| Reductions.Max | SLISC/arithmetic.h:148-157 | `max(v)` with at least one element returns an element that is at least every element |
| Reductions.MaxInd | SLISC/arithmetic.h:171-181 | `max(ind, v)` returns the maximum; whenever `ind` changes, it becomes a position from 1 on that holds the maximum |
| Reductions.MaxIndStale | SLISC/arithmetic.h:171-181 | for `v = [5, 3]` and `ind = 1` on entry, `ind` stays 1, which does not hold the maximum |
| Reductions.MaxIndCorrected | SLISC/arithmetic.h:171-181 | with `ind` starting at 0, `ind` is the first position of the maximum |
| Reductions.PrefixSumsDifference | SLISC/arithmetic.h:1173-1180 | consecutive running totals differ by the element between them |
| Reductions.PrefixSumsInverse | SLISC/arithmetic.h:1173-1180 | differencing the running totals gives the input back, and the last total is the sum |
| Reductions.Cumsum | SLISC/arithmetic.h:1173-1180 | `F` is resized to `|f|`; `F(i)` is the running total for `i < N-1`, and `F(N-1)` keeps what the buffer held |
| Reductions.CumsumMissesLast | SLISC/arithmetic.h:1178 | for `f = [1, 1]` over a zeroed `F` the result is `[1, 0]`, not `[1, 2]` |
| Reductions.CumsumCorrected | SLISC/arithmetic.h:1173-1180 | with the loop running to `N-1`, `F` holds every running total |
| Reductions.RunningTotals | SLISC/arithmetic.h:1178-1179 | the loop `F(i) = F(i-1) + f(i)` leaves the running totals in the slots it visits and nothing else changed, also when `F` is `f` |
| Rearrange.ReversedInvolution | SLISC/arithmetic.h:260-269 | reversing twice gives the sequence back |
| Rearrange.Flip | SLISC/arithmetic.h:260-269 | in-place `flip(v)` leaves `v` reversed |
| Rearrange.FlipInto | SLISC/arithmetic.h:271-278 | `flip(v, v0)` makes `v` the reverse of `v0` and leaves `v0` unchanged |
| Rearrange.SplicedAsRuns | SLISC/arithmetic.h:300-302 | rotating a run left by `n` puts its last `len-n` elements first and its first `n` last; the rest is unchanged |
| Rearrange.SplicedWhole | SLISC/arithmetic.h:295 | rotating by 0 or by the full run length changes nothing, so the early return is sound |
| Rearrange.RotateLeft | SLISC/arithmetic.h:298-303 | the three copies through a temporary rotate the run left by `n` |
| Rearrange.MoveDown | SLISC/arithmetic.h:301 | the copy of `cnt` elements from `src` down to `dst <= src` puts the old `[src, src+cnt)` at `[dst, dst+cnt)` and leaves everything else as it was |
| Rearrange.RotationAssembled | SLISC/arithmetic.h:300-302 | saving the run's first `n` elements, moving the rest down by `n` and writing the saved ones behind them rotates the run left by `n` |
| Rearrange.RowsRotatedInverse | SLISC/arithmetic.h:326-368 | rotating every row left by `a_i` and then by `Nc - a_i` restores the matrix |
| Rearrange.RotateRows | SLISC/arithmetic.h:299-303 | rotating each of rows `from..Nr-1` in turn yields `RowsRotated` of the input |
| Rearrange.Diagonals | SLISC/arithmetic.h:326-338 | row `i` is rotated left by `i` |
| Rearrange.Idiagonals | SLISC/arithmetic.h:356-368 | row `i` is rotated right by `i` |
| Rearrange.DiagonalsAt | SLISC/arithmetic.h:325-338 | after `diagonals`, `a'(i, j) = a(i, (i+j) mod Nc)`, so `a'(i, 0) = a(i, i)`: the diagonal moves to column 0 |
| Rearrange.DiagonalsInverse | SLISC/arithmetic.h:326-368 | `idiagonals` after `diagonals`, and `diagonals` after `idiagonals`, are the identity |
| Rearrange.ShiftedAt | SLISC/arithmetic.h:283-323 | with `dim == 2`, `a'(i, j) = a(i, (j - nshift) mod Nc)`; otherwise `a'(i, j) = a((i - nshift) mod Nr, j)` |
| Rearrange.ShiftedZero | SLISC/arithmetic.h:293-294 | a zero shift leaves the matrix unchanged |
| Rearrange.ShiftedCompose | SLISC/arithmetic.h:283-323 | shifting by `m` and then by `n` is shifting by `m + n` |
| Rearrange.ShiftedInverse | SLISC/arithmetic.h:283-323 | `shift(a, n)` followed by `shift(a, -n)` restores `a` |
| Rearrange.ShiftAmount | SLISC/arithmetic.h:289-292 | the left rotation `n` the code computes from `nshift` is in `[0, N]`, and rotating left by it moves index `j` to `(j - nshift) mod N` |
| Rearrange.ShiftColumnsAsRows | SLISC/arithmetic.h:287-305 | the `dim == 2` shift is the left rotation of every row by `n` |
| Rearrange.ShiftRowsAsSplice | SLISC/arithmetic.h:306-322 | the row shift is the left rotation of the whole buffer by `n*Nc` |
| Rearrange.Shift | SLISC/arithmetic.h:283-323 | `shift(a, nshift, dim)` leaves `a` equal to `Shifted`, whose meaning `ShiftedAt` gives |
| Elementwise.MinusUndoesPlus | SLISC/arithmetic.h:461-512 | `v += v1` followed by `v -= v1` restores `v` |
| Elementwise.DivideRemRecombine | SLISC/arithmetic.h:541-565 | with nonzero divisors, `(v / v1) * v1 + v % v1 == v` element by element, with C++ truncation |
| Elementwise.RemBounds | SLISC/arithmetic.h:627-648 | each remainder is smaller in magnitude than its divisor and has the sign of the dividend |
| Elementwise.ModuloInRange | SLISC/arithmetic.h:654-665 | with positive divisors, `mod` lands in `[0, s)` and equals the Euclidean remainder |
| Elementwise.CommutativeSwap | SLISC/arithmetic.h:691-701 | `+` and `*` take their operands in either order, so `plus(v, s, v1)` may reuse `plus_vvs(v, v1, s)`, and the same for `times` |
| Elementwise.TimesMinusOne | SLISC/arithmetic.h:726-732 | multiplying by -1 negates every element, and doing it twice restores the input |
| Elementwise.ZeroMinusNegates | SLISC/arithmetic.h:735-753 | `minus(v, v1)` is `0 - v1`, the element-wise negation of `v1` |
| Elementwise.CompoundInPlace | SLISC/arithmetic.h:461-565 | `v op= v1` leaves `v[i] = old v[i] op v1[i]`, also when `v1` is `v` |
| Elementwise.CompoundScalar | SLISC/arithmetic.h:567-634 | `v += s`, `-= s`, `*= s` and `%= s` leave `v[i] = old v[i] op s` |
| Elementwise.Negate | SLISC/arithmetic.h:726-732 | `minus(v)` multiplies every element by -1 in place |
| Elementwise.CombineInto | SLISC/arithmetic.h:704-724 | `v = v1 op v2` element by element, also when `v` is one of the operands |
| Elementwise.CombineScalarInto | SLISC/arithmetic.h:672-701 | `v = v1 op s` or `v = s op v1` element by element |
| Elementwise.VectorCompound | SLISC/arithmetic.h:470-472 | vector `+=`, `-=`, `*=` and `/=` need equal sizes; the result is element-wise and the size is kept |
| Elementwise.MatrixCompound | SLISC/arithmetic.h:474-476 | matrix `+=`, `-=`, `*=` and `/=` need equal shapes; the result is element-wise and the shape is kept |
| Elementwise.CmatCompound | SLISC/arithmetic.h:478-480 | column-major `+=`, `-=`, `*=` and `/=` need equal shapes; the result is element-wise and the shape is kept |
| Elementwise.Mat3dCompound | SLISC/arithmetic.h:482-484 | three-dimensional `+=`, `-=`, `*=` and `/=` need equal shapes; the result is element-wise and the shape is kept |
| Elementwise.VectorCombine | SLISC/arithmetic.h:704-716 | `plus`/`minus`/`times`/`divide(v, v1, v2)` need equal sizes of `v1` and `v2`; `v` takes `v1`'s size and holds `v1 op v2` |
| Elementwise.MatrixCombine | SLISC/arithmetic.h:717-720 | the same for matrices: `v` takes `v1`'s shape |
| Elementwise.Mat3dCombine | SLISC/arithmetic.h:721-724 | the same for three-dimensional arrays |
| Elementwise.VectorCombineScalar | SLISC/arithmetic.h:672-693 | `plus`/`minus`/`times`/`divide`/`rem`/`mod` with one scalar operand: `v` takes `v1`'s size and holds `v1 op s` or `s op v1` |
| Elementwise.MatrixCombineScalar | SLISC/arithmetic.h:682-697 | the same for matrices |
| Elementwise.Mat3dCombineScalar | SLISC/arithmetic.h:686-701 | the same for three-dimensional arrays |
| Elementwise.OuterProductAt | SLISC/arithmetic.h:1066-1078 | element `(i, j)` of the outer product is `v1[i] * v2[j]` |
| Elementwise.OuterProductRankOne | SLISC/arithmetic.h:1066-1078 | every 2 x 2 minor of the outer product vanishes |
| Elementwise.OuterProductTranspose | SLISC/arithmetic.h:1066-1078 | exchanging the factors transposes the product |
| Elementwise.WriteScaledRow | SLISC/arithmetic.h:1073-1076 | row `i` is written as `v1[i] * v2[j]`, and no other slot changes |
| Elementwise.OuterInto | SLISC/arithmetic.h:1071-1077 | the row loop writes row `i` as `v1[i]` times `v2` and fills the whole buffer with the outer product |
| Elementwise.Outprod | SLISC/arithmetic.h:1066-1078 | `v` is resized to `|v1| x |v2|` and holds the outer product |
| Elementwise.ColumnDotUnit | SLISC/arithmetic.h:1138-1152 | a unit row vector `e_p` selects entry `(p, j)` |
| Elementwise.ColumnDotAdditive | SLISC/arithmetic.h:1138-1152 | the product is additive in the row vector |
| Elementwise.VecMatUnit | SLISC/arithmetic.h:1138-1152 | `e_p` times the matrix is row `p` |
| Elementwise.AccumulateColumn | SLISC/arithmetic.h:1148-1150 | the inner loop adds `sum_k x[k]*a(k, j)` to `y[j]` and touches nothing else |
| Elementwise.MulPar | SLISC/arithmetic.h:1138-1152 | with `|x| == nrows`, `y` gets `ncols` elements and `y[j] = sum_k x[k]*a(k, j)` |
| FixSize.FixVec.Filled | SLISC/fixsize.h:16 | the scalar constructor sets all `N` elements to the scalar |
| FixSize.FixVec.Size | SLISC/fixsize.h:20 | `size()` is the number of elements held |
| FixSize.FixVec.Get | SLISC/fixsize.h:33-59 | `v[i]` and `v(i)` give element `i`, and report out of bounds exactly when `i < 0` or `i >= N` |
| FixSize.FixVec.Put | SLISC/fixsize.h:33-41 | writing through `v[i]` changes element `i` only, and fails without writing outside `[0, N)` |
| FixSize.FixVec.End | SLISC/fixsize.h:79-97 | `end(i)` gives element `N - i`, and reports out of bounds unless `1 <= i <= N` |
| FixSize.EndIsGetFromBack | SLISC/fixsize.h:79-97 | `end(i)` is subscript `N - i` in and out of range, so `end(1)` is the last element |
| FixSize.PutThenGet | SLISC/fixsize.h:33-41 | after writing element `i`, reading `i` gives the value written and other subscripts read as before |
| FixSize.FixVec.constructor | SLISC/fixsize.h:15 | the default constructor holds `N` elements |
| FixSize.FixVec.Fill | SLISC/fixsize.h:65-70 | assigning a scalar sets all `N` elements to it |
| FixSize.FixVec.Assign | SLISC/fixsize.h:61-77 | assigning a FixVec of the same size copies it element by element; the size stays `N` |
| FixSize.EqualFixVec | SLISC/fixsize.h:188-194 | `==` holds exactly when the element sequences are equal |
| FixSize.EqualFixVecScalar | SLISC/fixsize.h:196-202 | `== s` holds exactly when every element is `s` |
| FixSize.AssignmentsEstablishEquality | SLISC/fixsize.h:65-77 | filling with `s` is exactly what makes `== s` hold, and after an element copy `==` holds |
| FixSize.FixCmat.Filled | SLISC/fixsize.h:125-127 | the scalar constructor sets every element |
| FixSize.FixCmat.constructor | SLISC/fixsize.h:110 | the default constructor holds `Nr*Nc` elements |
| FixSize.FixCmat.Nrows | SLISC/fixsize.h:178-180 | `nrows()` times `ncols` is the element count |
| FixSize.FixCmat.Ncols | SLISC/fixsize.h:182-184 | `nrows` times `ncols()` is the element count |
| FixSize.FixCmat.Get | SLISC/fixsize.h:158-176 | `a(i, j)` is the slot `i + Nr*j`, and reports out of bounds unless `0 <= i < Nr` and `0 <= j < Nc` |
| FixSize.FixCmat.Put | SLISC/fixsize.h:158-166 | writing through `a(i, j)` changes only slot `i + Nr*j`, and fails without writing out of range |
| FixSize.FixCmat.Fill | SLISC/fixsize.h:151-156 | assigning a scalar sets every element |
| FixSize.FixCmat.Assign | SLISC/fixsize.h:135-149 | assigning a FixCmat with as many elements copies it element by element, and the shape stays its own |
| FixSize.CopyConstruct | SLISC/fixsize.h:129-133 | the copy constructor never constructs; it always reports the error |
| FixSize.FixCmatEverySlotReached | SLISC/fixsize.h:158-176 | slot `k` is element `(k % Nr, k / Nr)`, so `(i, j) -> i + Nr*j` is onto the storage |
| FixSize.FixCmatSubscriptsDistinct | SLISC/fixsize.h:158-176 | distinct in-range subscripts name distinct slots, so the map is one-to-one |
| FixSize.SlotsAgreeIffSubscriptsAgree | SLISC/fixsize.h:204-206 | two FixCmats agree in every slot exactly when they agree at every `(i, j)` |
| FixSize.SlotsFilledIffSubscriptsFilled | SLISC/fixsize.h:212-214 | every slot holds `s` exactly when every `(i, j)` reads `s` |
| FixSize.EqualFixCmat | SLISC/fixsize.h:204-210 | `==` between FixCmats of one shape holds exactly when every `(i, j)` agrees |
| FixSize.EqualFixCmatScalar | SLISC/fixsize.h:212-218 | `== s` holds exactly when every `(i, j)` reads `s` |

## Left out

- `copy(Jcmat3d, Jcmat3d)` (copy.h:188-203): the Jcmat3d container is not part of this model.
- The `MatCooH` overloads of `shape_cmp` are left out, because the `MatCooH` container is not part of this model.
- Floating-point and complex code is left out:
  - the complex `outprod` overload with `conj`;
  - `/=` by a scalar, which multiplies by the floating-point reciprocal;
  - the complex `max(ind, v)`;
  - the remaining floating-point helpers of `arithmetic.h`.
- OpenMP parallelism: `mul_par` is modelled by its sequential meaning; the `_par` variants are not modelled.
- The pointer kernels of the element-wise operators are not part of this model. Each is described by its evident element-wise meaning (`Apply`).
- The element-wise functions that do not compile as shown are modelled by their evident intent:
  - `minus_vsv` uses an undeclared `T2`;
  - `divide_vvs` misses a `)`;
  - a bare `TODO` line precedes `divide(v, s, v1)`;
  - `minus_vvs` and `minus_vvv` are declared for `Vector` only but called with matrices.
- Elementwise.CombineScalarInto, Elementwise.CombineInto and the container forms built on them accept every operator in every operand order. `rem`/`mod` with the scalar first, and `rem`/`mod` of two containers, are TODOs in the source.
- `/=` by a scalar is defined by the library for floating-point elements only (as multiplication by `1./s`; integer `/=` is a TODO), so Elementwise.CompoundScalar has no `Divide` case; floating point is not modelled.
- Reductions.Max, Reductions.MaxInd, Reductions.MaxIndCorrected, Reductions.Cumsum and Reductions.CumsumCorrected require a nonempty input, because the source reads `v[0]` or `f(0)` before any check; on an empty container its behaviour is undefined.
- Integer overflow is not modelled: elements are unbounded, so a sum, product or negation that would wrap in a fixed-width type does not wrap here. The exception is `mod`, whose wrap-around is modelled and logged under Findings.
- ScalarArith.ModAsWritten and ScalarArith.IsPow2 give signed overflow the two's complement wrap-around value (the behaviour of `-fwrapv`). In C++ that overflow is undefined behaviour, so the source promises nothing there; the wrapped values (-3 for `mod`, true at `LONG_MIN` for `ispow2`) are what a wrapping machine computes.
- Rearrange.Shift does not model the overflow of `-nshift` when `nshift` is the most negative `Llong`.
- Rearrange.Shift requires a nonempty shifted dimension when `nshift != 0`, because C++ `%` by zero is undefined.
- The comments before `shift` name the directions the other way round from the code:
  - with `dim == 2` the code moves columns;
  - by default it moves rows.
  The model follows the code.
- Rearrange.Shift does not model the temporary of the row shift (arithmetic.h:317). It holds `n` elements but is given `n*Nc`. The model uses value semantics, as for all memory management, so a temporary of the size that is copied is assumed.
- Rearrange.Diagonals and Rearrange.Idiagonals require `Nr <= Nc + 1`. For a taller matrix, `memcpy` would receive the negative size `Nc - i`.
- `memcpy` between overlapping ranges, in the shifts and rotations, is modelled (Rearrange.MoveDown) as the forward element move it is meant to be.
- Aliasing preconditions:
  - Rearrange.FlipInto, Elementwise.Outprod and Elementwise.MulPar require the result's buffer to differ from the inputs' buffers. Distinct containers never share a buffer.
  - CopyPrimitives.VecCpy and the other copy primitives require distinct buffers.
- Containers.Vector.Resize, Containers.Matrix.Resize and Containers.Mat3d.Resize leave the contents of a new buffer unspecified, because the container headers are not part of this model. The results never depend on those contents, except the last element of Reductions.Cumsum.
- FixSize.FixVec.Assign copies a vector onto itself by leaving it as it is. The source calls `veccpy` on identical pointers.
- FixSize.FixCmat.Assign models the templated `operator=` as an element copy between FixCmats with the same element count. As written, the source assigns to its template parameters `Nr` and `Nc`, which is ill-formed.
- The `FixVec` default constructor leaves the elements unspecified, as C++ does.
- `fedvr.h`, `time.h`, `fourier.h` and the test headers are not part of this model.
- The `!=` operators of FixVec and FixCmat (fixsize.h:192-194, 200-202, 208-210, 216-218) are the negations of `==` and are not modelled separately.
- `outprod` declares its temporaries as `Comp` whatever the element type; the model computes in the element type.
- Shape.ShapeCmpMatrix, Shape.ShapeCmpMatrixCoo and Shape.ShapeCmpMat3d state only that equal shapes mean equal buffer lengths. That the comparison is dimension by dimension is their definition. Shape.ShapeCmpVector is the same comparison, on the one dimension a vector has.

## Findings

| source | as written | input that shows it | evidently intended | confidence | as-written member | corrected member |
|---|---|---|---|---|---|---|
| SLISC/copy.h:89-99 | `matcpy_2_major` writes `a[i2 + N1*i1]` for `i2 < N2`, `i1 < N1`, a column stride of `N1` for columns of length `N2` | `N1 = 2, N2 = 3`: slot 2 is written twice and slot 5 never; `N1 = 3, N2 = 2`: slot 7 of a 6-slot buffer is written | the destination stride is the column length: `a[i2 + N2*i1] = a1[i2*N1 + i1]` | medium; not executed | CopyPrimitives.AsWrittenCollides | CopyPrimitives.MatCpy2Major |
| SLISC/copy.h:185 | Dcmat copy calls `matcpy(a, lda, a1, lda1, n1, n2)`: `n1` runs of `n2` elements, although a column-major block has `n2` columns of `n1` | a packed 2 x 3 Dcmat (`lda = 2`): slot 5, element `(1, 2)`, is never copied | `matcpy(..., n2, n1)` for the column-major case | medium; not executed | ContainerCopy.DcmatAsWrittenMisses | ContainerCopy.CopyDcmat |
| SLISC/scalar_arith.h:77-79 | `mod` computes `(i % n + n) % n`, and the sum can exceed the word | `mod(LONG_MAX - 1, LONG_MAX)`: the sum overflows, which is undefined behaviour; under two's complement wrap-around the result is -3 | the positive modulus, in `[0, n)` | high; not executed | ScalarArith.ModAsWrittenOverflows | ScalarArith.ModPositive |
| SLISC/arithmetic.h:171-181 | `max(ind, v)` writes `ind` only when a later element is strictly larger | `v = [5, 3]` with `ind = 1` on entry: returns 5, and `ind` stays 1, where 3 is stored | `ind = 0` before the loop, so `v[ind]` is the maximum | medium; not executed | Reductions.MaxIndStale | Reductions.MaxIndCorrected |
| SLISC/arithmetic.h:1178 | the `cumsum` loop runs while `i < N - 1`, so `F(N-1)` is never written | `f = [1, 1]` with `F` holding zeros gives `[1, 0]` | the loop runs to `N`, giving `[1, 2]` | high; not executed | Reductions.CumsumMissesLast | Reductions.CumsumCorrected |
