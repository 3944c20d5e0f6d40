/** The sparse copies of SLISC/copy.h: MatCoo to MatCoo, and the expansion of an
    overlapping-block matrix (CmatObd) into a MatCoo. */
module Coo {

  import NonLinear
  import opened CopyPrimitives
  import opened ContainerCopy

  /** One stored nonzero: its value, row and column. */
  datatype Triple = Triple(val: int, row: int, col: int)

  /** The triples of three parallel arrays of equal length. */
  function Zip(vs: seq<int>, rs: seq<int>, cs: seq<int>): (t: seq<Triple>)
    requires |vs| == |rs| == |cs|
    ensures |t| == |vs|
  {
    if |vs| == 0 then [] else Zip(vs[..|vs| - 1], rs[..|rs| - 1], cs[..|cs| - 1]) + [Triple(vs[|vs| - 1], rs[|rs| - 1], cs[|cs| - 1])]
  }

  /** The `k`-th triple gathers the `k`-th entry of each array. */
  lemma {:induction false} ZipAt(vs: seq<int>, rs: seq<int>, cs: seq<int>, k: int)
    requires |vs| == |rs| == |cs| && 0 <= k < |vs|
    ensures Zip(vs, rs, cs)[k] == Triple(vs[k], rs[k], cs[k])
    decreases |vs|
  {
    var n := |vs| - 1;
    if k < n {
      ZipAt(vs[..n], rs[..n], cs[..n], k);
    }
  }

  /** Appending one entry to each array appends their triple. */
  lemma ZipSnoc(vs: seq<int>, rs: seq<int>, cs: seq<int>, v: int, r: int, c: int)
    requires |vs| == |rs| == |cs|
    ensures Zip(vs + [v], rs + [r], cs + [c]) == Zip(vs, rs, cs) + [Triple(v, r, c)]
  {
    assert (vs + [v])[..|vs|] == vs;
    assert (rs + [r])[..|rs|] == rs;
    assert (cs + [c])[..|cs|] == cs;
  }

  /** A sparse matrix in coordinate format (MatCoo<T>): `nnz` triples stored in three
      parallel arrays of length `Capacity()`. */
  class MatCoo {
    var nr: nat
    var nc: nat
    var nnz: nat
    const vals: array<int>
    const rows: array<int>
    const cols: array<int>

    predicate Valid()
      reads this
    {
      rows.Length == vals.Length && cols.Length == vals.Length && nnz <= vals.Length &&
      vals != rows && vals != cols && rows != cols
    }

    function Capacity(): nat
    {
      vals.Length
    }

    /** The stored triples, in storage order. */
    function Entries(): (t: seq<Triple>)
      requires Valid()
      reads this, vals, rows, cols
      ensures |t| == nnz
    {
      Zip(vals[..nnz], rows[..nnz], cols[..nnz])
    }

    constructor (nr: nat, nc: nat, capacity: nat)
      ensures this.nr == nr && this.nc == nc && nnz == 0 && Capacity() == capacity && Valid()
      ensures fresh(vals) && fresh(rows) && fresh(cols)
    {
      this.nr, this.nc, nnz := nr, nc, 0;
      vals := new int[capacity];
      rows := new int[capacity];
      cols := new int[capacity];
    }

    /** resize(n) of a MatCoo within its capacity: only the count of stored triples changes. */
    method Resize(n: nat)
      requires Valid() && n <= Capacity()
      modifies this
      ensures Valid() && nnz == n && nr == old(nr) && nc == old(nc)
    {
      nnz := n;
    }

    /** push(s, i, j): append a triple; with the capacity used up the library reports an
        error, and nothing is stored. */
    method Push(s: int, i: int, j: int) returns (ok: bool)
      requires Valid()
      modifies this, vals, rows, cols
      ensures Valid() && nr == old(nr) && nc == old(nc)
      ensures ok == (old(nnz) < Capacity())
      ensures ok ==> Entries() == old(Entries()) + [Triple(s, i, j)]
      ensures !ok ==> Entries() == old(Entries()) && nnz == Capacity()
    {
      if nnz == vals.Length {
        return false;
      }
      ghost var vs, rs, cs := vals[..nnz], rows[..nnz], cols[..nnz];
      vals[nnz] := s;
      rows[nnz] := i;
      cols[nnz] := j;
      nnz := nnz + 1;
      assert vals[..nnz] == vs + [s];
      assert rows[..nnz] == rs + [i];
      assert cols[..nnz] == cs + [j];
      ZipSnoc(vs, rs, cs, s, i, j);
      ok := true;
    }
  }

  /** copy(MatCoo, MatCoo): shape first, then capacity, then self-assignment, which is
      refused when both sides hold the same buffer; otherwise the destination is resized
      to the source's `nnz` and the three arrays are copied. */
  method CopyCoo(v: MatCoo, v1: MatCoo) returns (r: Outcome)
    requires v.Valid() && v1.Valid()
    requires v == v1 <==> v.vals == v1.vals
    requires v != v1 ==> {v.vals, v.rows, v.cols} !! {v1.vals, v1.rows, v1.cols}
    modifies v, v.vals, v.rows, v.cols
    ensures r == (if !(v.nr == v1.nr && v.nc == v1.nc) then WrongShape
                  else if v.Capacity() < v1.nnz then NotEnoughCapacity
                  else if v == v1 then SelfAssignment
                  else Copied)
    ensures v.Valid() && v.nr == old(v.nr) && v.nc == old(v.nc)
    ensures r == Copied ==> v.Entries() == v1.Entries()
    ensures r != Copied ==> v.nnz == old(v.nnz) && v.Entries() == old(v.Entries())
  {
    if !(v.nr == v1.nr && v.nc == v1.nc) {
      return WrongShape;
    }
    if v.Capacity() < v1.nnz {
      return NotEnoughCapacity;
    }
    if v.vals == v1.vals {
      return SelfAssignment;
    }
    var n := v1.nnz;
    v.Resize(n);
    VecCpy(v.vals, 0, v1.vals, 0, n);
    VecCpy(v.rows, 0, v1.rows, 0, n);
    VecCpy(v.cols, 0, v1.cols, 0, n);
    assert v.vals[..n] == v1.vals[..n];
    assert v.rows[..n] == v1.rows[..n];
    assert v.cols[..n] == v1.cols[..n];
    r := Copied;
  }

  // ---------------------------------------------------------------------------
  // CmatObd to MatCoo

  /** An N x N matrix made of `nblk` dense `n0 x n0` blocks along the diagonal, each block
      overlapping the next in one corner element, with the first row and column and the last
      ones dropped. Its `n0*n0*nblk` stored values are block after block, column after column;
      `nnz` is the count the matrix reports. */
  datatype CmatObd = CmatObd(n0: nat, nblk: nat, n: int, nnz: int, vals: seq<int>)

  predicate ValidObd(o: CmatObd)
  {
    |o.vals| == o.nblk * o.n0 * o.n0
  }

  /** The position of stored value `(i, j)` of block `blk` in the loop's count `k`. */
  function Stored(n0: nat, blk: nat, j: nat, i: nat): nat
  {
    (blk * n0 + j) * n0 + i
  }

  lemma StoredBelow(n0: nat, nblk: nat, blk: nat, j: nat, i: nat)
    requires blk < nblk && j < n0 && i < n0
    ensures Stored(n0, blk, j, i) < nblk * n0 * n0
  {
    var q := blk * n0 + j;
    NonLinear.MulComm(blk, n0);
    NonLinear.LinearBelow(n0, nblk, j, blk);
    NonLinear.MulComm(n0, nblk);
    assert q < nblk * n0;
    var m := nblk * n0;
    NonLinear.LinearBelow(n0, m, i, q);
    NonLinear.MulComm(q, n0);
    NonLinear.MulComm(n0, m);
  }

  /** Row (or column) of the whole matrix that index `i` of block `blk` lands on. */
  function Global(n0: nat, blk: nat, i: nat): int
  {
    blk * (n0 - 1) - 1 + i
  }

  /** The test of the loop: a value is pushed unless it is the block's bottom-right corner
      (stored again as the next block's top-left), or it lies on the dropped first or last
      row or column. The value itself plays no part. */
  predicate Kept(n0: nat, n: int, blk: nat, j: nat, i: nat)
  {
    var ii := Global(n0, blk, i);
    var jj := Global(n0, blk, j);
    !((i == n0 - 1 && j == n0 - 1) || ii < 0 || jj < 0 || ii == n || jj == n)
  }

  /** The triple for stored value `(i, j)` of block `blk`. */
  function Cell(o: CmatObd, blk: nat, j: nat, i: nat): Triple
    requires ValidObd(o) && blk < o.nblk && j < o.n0 && i < o.n0
  {
    StoredBelow(o.n0, o.nblk, blk, j, i);
    Triple(o.vals[Stored(o.n0, blk, j, i)], Global(o.n0, blk, i), Global(o.n0, blk, j))
  }

  /** The triples pushed for the first `c` rows of column `j` of block `blk`. */
  function ObdCells(o: CmatObd, blk: nat, j: nat, c: nat): seq<Triple>
    requires ValidObd(o) && blk < o.nblk && j < o.n0 && c <= o.n0
  {
    if c == 0 then []
    else
      var i := c - 1;
      StoredBelow(o.n0, o.nblk, blk, j, i);
      ObdCells(o, blk, j, i) + (if Kept(o.n0, o.n, blk, j, i) then [Cell(o, blk, j, i)] else [])
  }

  /** The triples pushed for the first `c` columns of block `blk`. */
  function ObdColumns(o: CmatObd, blk: nat, c: nat): seq<Triple>
    requires ValidObd(o) && blk < o.nblk && c <= o.n0
  {
    if c == 0 then [] else ObdColumns(o, blk, c - 1) + ObdCells(o, blk, c - 1, o.n0)
  }

  /** The triples pushed for the first `b` blocks. */
  function ObdBlocks(o: CmatObd, b: nat): seq<Triple>
    requires ValidObd(o) && b <= o.nblk
  {
    if b == 0 then [] else ObdBlocks(o, b - 1) + ObdColumns(o, b - 1, o.n0)
  }

  /** Every triple the expansion pushes, in the loop's order. */
  function ObdEntries(o: CmatObd): seq<Triple>
    requires ValidObd(o)
  {
    ObdBlocks(o, o.nblk)
  }

  /** copy(MatCoo, CmatObd): after the shape and capacity checks, the kept values are
      pushed in order onto what `v` already holds, which is not cleared. When a push finds
      the capacity used up the library reports an error; `v` then holds a prefix. */
  method CopyFromObd(v: MatCoo, v1: CmatObd) returns (r: Outcome)
    requires v.Valid() && ValidObd(v1)
    modifies v, v.vals, v.rows, v.cols
    ensures v.Valid() && v.nr == old(v.nr) && v.nc == old(v.nc)
    ensures !(v.nr == v1.n && v.nc == v1.n) ==> r == WrongShape
    ensures v.nr == v1.n && v.nc == v1.n && v.Capacity() < v1.nnz ==> r == NotEnoughCapacity
    ensures r == WrongShape || r == NotEnoughCapacity || r == Copied
    ensures r == WrongShape ==> v.Entries() == old(v.Entries())
    ensures r == Copied ==> v.Entries() == old(v.Entries()) + ObdEntries(v1)
    ensures r != Copied ==> old(v.Entries()) <= v.Entries() <= old(v.Entries()) + ObdEntries(v1)
    ensures r == Copied ==> v.nr == v1.n && v.nc == v1.n && v.Capacity() >= v1.nnz
    ensures r == NotEnoughCapacity && v.Capacity() >= v1.nnz ==> v.nnz == v.Capacity()
    ensures v.nr == v1.n && v.nc == v1.n && v.Capacity() >= v1.nnz && old(v.nnz) + |ObdEntries(v1)| <= v.Capacity() ==> r == Copied
  {
    if !(v.nr == v1.n && v.nc == v1.n) {
      return WrongShape;
    }
    if v.Capacity() < v1.nnz {
      return NotEnoughCapacity;
    }
    ghost var start := v.Entries();
    for blk := 0 to v1.nblk
      invariant v.Valid() && v.nr == old(v.nr) && v.nc == old(v.nc)
      invariant v.Entries() == start + ObdBlocks(v1, blk)
    {
      ghost var before := v.Entries();
      var ok := PushBlock(v, v1, blk);
      BlocksPrefix(v1, blk + 1, v1.nblk);
      if !ok {
        StoppedWithin(start, ObdBlocks(v1, blk), ObdColumns(v1, blk, v1.n0), ObdBlocks(v1, blk + 1), ObdEntries(v1), before, v.Entries());
        return NotEnoughCapacity;
      }
      Extended(start, ObdBlocks(v1, blk), ObdColumns(v1, blk, v1.n0), ObdBlocks(v1, blk + 1), before, v.Entries());
    }
    r := Copied;
  }

  /** The middle loop of the expansion: the columns of block `blk`. */
  method PushBlock(v: MatCoo, v1: CmatObd, blk: nat) returns (ok: bool)
    requires v.Valid() && ValidObd(v1) && blk < v1.nblk
    modifies v, v.vals, v.rows, v.cols
    ensures v.Valid() && v.nr == old(v.nr) && v.nc == old(v.nc)
    ensures ok ==> v.Entries() == old(v.Entries()) + ObdColumns(v1, blk, v1.n0)
    ensures !ok ==> old(v.Entries()) <= v.Entries() <= old(v.Entries()) + ObdColumns(v1, blk, v1.n0)
    ensures !ok ==> v.nnz == v.Capacity() && |v.Entries()| < |old(v.Entries())| + |ObdColumns(v1, blk, v1.n0)|
  {
    ghost var start := v.Entries();
    for j := 0 to v1.n0
      invariant v.Valid() && v.nr == old(v.nr) && v.nc == old(v.nc)
      invariant v.Entries() == start + ObdColumns(v1, blk, j)
    {
      ghost var before := v.Entries();
      ok := PushColumn(v, v1, blk, j);
      ColumnsPrefix(v1, blk, j + 1, v1.n0);
      if !ok {
        StoppedWithin(start, ObdColumns(v1, blk, j), ObdCells(v1, blk, j, v1.n0), ObdColumns(v1, blk, j + 1), ObdColumns(v1, blk, v1.n0), before, v.Entries());
        return false;
      }
      Extended(start, ObdColumns(v1, blk, j), ObdCells(v1, blk, j, v1.n0), ObdColumns(v1, blk, j + 1), before, v.Entries());
    }
    ok := true;
  }

  /** The innermost loop of the expansion: column `j` of block `blk`, with `k` the running
      position in the stored values. */
  method PushColumn(v: MatCoo, v1: CmatObd, blk: nat, j: nat) returns (ok: bool)
    requires v.Valid() && ValidObd(v1) && blk < v1.nblk && j < v1.n0
    modifies v, v.vals, v.rows, v.cols
    ensures v.Valid() && v.nr == old(v.nr) && v.nc == old(v.nc)
    ensures ok ==> v.Entries() == old(v.Entries()) + ObdCells(v1, blk, j, v1.n0)
    ensures !ok ==> old(v.Entries()) <= v.Entries() <= old(v.Entries()) + ObdCells(v1, blk, j, v1.n0)
    ensures !ok ==> v.nnz == v.Capacity() && |v.Entries()| < |old(v.Entries())| + |ObdCells(v1, blk, j, v1.n0)|
  {
    var N0 := v1.n0;
    var N := v1.n;
    var k := Stored(N0, blk, j, 0);
    for i := 0 to N0
      invariant v.Valid() && v.nr == old(v.nr) && v.nc == old(v.nc)
      invariant k == Stored(N0, blk, j, i)
      invariant v.Entries() == old(v.Entries()) + ObdCells(v1, blk, j, i)
    {
      var shift := blk * (N0 - 1) - 1;
      var ii, jj := shift + i, shift + j;
      StoredBelow(N0, v1.nblk, blk, j, i);
      ghost var before := v.Entries();
      ghost var kept := if Kept(N0, N, blk, j, i) then [Cell(v1, blk, j, i)] else [];
      assert ObdCells(v1, blk, j, i + 1) == ObdCells(v1, blk, j, i) + kept;
      if !((i == N0 - 1 && j == N0 - 1) || ii < 0 || jj < 0 || ii == N || jj == N) {
        assert kept == [Triple(v1.vals[k], ii, jj)];
        var ok := v.Push(v1.vals[k], ii, jj);
        if !ok {
          StoppedInColumn(v1, blk, j, i, old(v.Entries()), v.Entries());
          return false;
        }
        Extended(old(v.Entries()), ObdCells(v1, blk, j, i), kept, ObdCells(v1, blk, j, i + 1), before, v.Entries());
      } else {
        assert kept == [];
      }
      k := k + 1;
    }
    ok := true;
  }

  // Sequence bookkeeping, kept apart from the definitions of the expansion.

  /** A state `before == pre + part` extended by `more` is `pre + joined` with
      `joined == part + more`. */
  lemma Extended<T>(pre: seq<T>, part: seq<T>, more: seq<T>, joined: seq<T>, before: seq<T>, now: seq<T>)
    requires before == pre + part && now == before + more && joined == part + more
    ensures now == pre + joined
  {
    assert pre + part + more == pre + (part + more);
  }

  /** A column whose push of kept value `i` fails holds a strict prefix of its triples. */
  lemma StoppedInColumn(o: CmatObd, blk: nat, j: nat, i: nat, base: seq<Triple>, now: seq<Triple>)
    requires ValidObd(o) && blk < o.nblk && j < o.n0 && i < o.n0 && Kept(o.n0, o.n, blk, j, i)
    requires now == base + ObdCells(o, blk, j, i)
    ensures base <= now <= base + ObdCells(o, blk, j, o.n0)
    ensures |now| < |base| + |ObdCells(o, blk, j, o.n0)|
  {
    CellsPrefix(o, blk, j, i, o.n0);
    CellsPrefix(o, blk, j, i + 1, o.n0);
    StoredBelow(o.n0, o.nblk, blk, j, i);
    StoppedShort(base, ObdCells(o, blk, j, i), [Cell(o, blk, j, i)], ObdCells(o, blk, j, i + 1), ObdCells(o, blk, j, o.n0), now);
  }

  /** A push that fails before a nonempty `more` leaves fewer than `base + whole` when
      `part + more` is a prefix of `whole`. */
  lemma StoppedShort<T>(base: seq<T>, part: seq<T>, more: seq<T>, joined: seq<T>, whole: seq<T>, now: seq<T>)
    requires now == base + part && joined == part + more && |more| > 0 && joined <= whole
    ensures |now| < |base| + |whole|
  {
  }

  /** A push interrupted inside `more`, which completes `part` to `joined`, leaves something
      between `base` and `base + whole` when `joined` is a prefix of `whole`. */
  lemma StoppedWithin<T>(base: seq<T>, part: seq<T>, more: seq<T>, joined: seq<T>, whole: seq<T>, before: seq<T>, now: seq<T>)
    requires before == base + part && before <= now <= before + more
    requires joined == part + more && joined <= whole
    ensures base <= now <= base + whole
  {
    assert before + more == base + joined;
    assert (base + whole)[..|base + joined|] == base + joined;
    assert now[..|base|] == before[..|base|];
  }

  lemma {:induction false} CellsPrefix(o: CmatObd, blk: nat, j: nat, c: nat, c': nat)
    requires ValidObd(o) && blk < o.nblk && j < o.n0 && c <= c' <= o.n0
    ensures ObdCells(o, blk, j, c) <= ObdCells(o, blk, j, c')
    decreases c'
  {
    if c < c' {
      CellsPrefix(o, blk, j, c, c' - 1);
    }
  }

  lemma {:induction false} ColumnsPrefix(o: CmatObd, blk: nat, c: nat, c': nat)
    requires ValidObd(o) && blk < o.nblk && c <= c' <= o.n0
    ensures ObdColumns(o, blk, c) <= ObdColumns(o, blk, c')
    decreases c'
  {
    if c < c' {
      ColumnsPrefix(o, blk, c, c' - 1);
    }
  }

  lemma {:induction false} BlocksPrefix(o: CmatObd, b: nat, b': nat)
    requires ValidObd(o) && b <= b' <= o.nblk
    ensures ObdBlocks(o, b) <= ObdBlocks(o, b')
    decreases b'
  {
    if b < b' {
      BlocksPrefix(o, b, b' - 1);
    }
  }

  // ---------------------------------------------------------------------------
  // What the expansion produces

  /** `t` is the triple pushed for stored value `(i, j)` of block `blk`, which is kept. */
  ghost predicate PushedFrom(o: CmatObd, t: Triple, blk: nat, j: nat, i: nat)
    requires ValidObd(o)
  {
    blk < o.nblk && j < o.n0 && i < o.n0 && Kept(o.n0, o.n, blk, j, i) && t == Cell(o, blk, j, i)
  }

  /** `t` is the triple of a kept stored value. */
  ghost predicate FromCell(o: CmatObd, t: Triple)
    requires ValidObd(o)
  {
    exists blk: nat, j: nat, i: nat :: PushedFrom(o, t, blk, j, i)
  }

  lemma {:induction false} CellsFromCells(o: CmatObd, blk: nat, j: nat, c: nat)
    requires ValidObd(o) && blk < o.nblk && j < o.n0 && c <= o.n0
    ensures forall t :: t in ObdCells(o, blk, j, c) ==> exists i: nat :: i < c && PushedFrom(o, t, blk, j, i)
  {
    if c > 0 {
      var i := c - 1;
      CellsFromCells(o, blk, j, i);
      StoredBelow(o.n0, o.nblk, blk, j, i);
      var last := if Kept(o.n0, o.n, blk, j, i) then [Cell(o, blk, j, i)] else [];
      assert ObdCells(o, blk, j, c) == ObdCells(o, blk, j, i) + last;
      forall t | t in ObdCells(o, blk, j, c)
        ensures exists i': nat :: i' < c && PushedFrom(o, t, blk, j, i')
      {
        if t !in ObdCells(o, blk, j, i) {
          assert PushedFrom(o, t, blk, j, i);
        }
      }
    }
  }

  lemma {:induction false} ColumnsFromCells(o: CmatObd, blk: nat, c: nat)
    requires ValidObd(o) && blk < o.nblk && c <= o.n0
    ensures forall t :: t in ObdColumns(o, blk, c) ==> exists j: nat, i: nat :: j < c && PushedFrom(o, t, blk, j, i)
  {
    if c > 0 {
      var j := c - 1;
      ColumnsFromCells(o, blk, j);
      CellsFromCells(o, blk, j, o.n0);
      forall t | t in ObdColumns(o, blk, c)
        ensures exists j': nat, i: nat :: j' < c && PushedFrom(o, t, blk, j', i)
      {
        if t in ObdColumns(o, blk, j) {
          var j': nat, i: nat :| j' < j && PushedFrom(o, t, blk, j', i);
        } else {
          assert t in ObdCells(o, blk, j, o.n0);
          var i: nat :| i < o.n0 && PushedFrom(o, t, blk, j, i);
        }
      }
    }
  }

  lemma {:induction false} BlocksFromCells(o: CmatObd, b: nat)
    requires ValidObd(o) && b <= o.nblk
    ensures forall t :: t in ObdBlocks(o, b) ==> exists blk: nat, j: nat, i: nat :: blk < b && PushedFrom(o, t, blk, j, i)
  {
    if b > 0 {
      var blk := b - 1;
      BlocksFromCells(o, blk);
      ColumnsFromCells(o, blk, o.n0);
      forall t | t in ObdBlocks(o, b)
        ensures exists blk': nat, j: nat, i: nat :: blk' < b && PushedFrom(o, t, blk', j, i)
      {
        if t in ObdBlocks(o, blk) {
          var blk': nat, j: nat, i: nat :| blk' < blk && PushedFrom(o, t, blk', j, i);
        } else {
          assert t in ObdColumns(o, blk, o.n0);
          var j: nat, i: nat :| j < o.n0 && PushedFrom(o, t, blk, j, i);
        }
      }
    }
  }

  /** No two positions of `s` hold triples with the same row and column. */
  predicate CoordinatesDistinct(s: seq<Triple>)
  {
    forall p, q :: 0 <= p < q < |s| ==> s[p].row != s[q].row || s[p].col != s[q].col
  }

  lemma DistinctJoin(a: seq<Triple>, b: seq<Triple>)
    requires CoordinatesDistinct(a) && CoordinatesDistinct(b)
    requires forall x, y :: x in a && y in b ==> x.row != y.row || x.col != y.col
    ensures CoordinatesDistinct(a + b)
  {
    forall p, q | 0 <= p < q < |a + b|
      ensures (a + b)[p].row != (a + b)[q].row || (a + b)[p].col != (a + b)[q].col
    {
      if q < |a| {
        assert (a + b)[p] == a[p] && (a + b)[q] == a[q];
      } else if p < |a| {
        assert (a + b)[p] == a[p] && (a + b)[q] == b[q - |a|];
        assert a[p] in a && b[q - |a|] in b;
      } else {
        assert (a + b)[p] == b[p - |a|] && (a + b)[q] == b[q - |a|];
      }
    }
  }

  /** Triples pushed from two different kept stored values differ in row or column. */
  lemma PushedApart(o: CmatObd, x: Triple, blk: nat, j: nat, i: nat, y: Triple, blk': nat, j': nat, i': nat)
    requires ValidObd(o) && PushedFrom(o, x, blk, j, i) && PushedFrom(o, y, blk', j', i')
    requires blk != blk' || j != j' || i != i'
    ensures x.row != y.row || x.col != y.col
  {
    if x.row == y.row && x.col == y.col {
      KeptDistinct(o.n0, o.n, blk, j, i, blk', j', i');
      assert false;
    }
  }

  lemma {:induction false} CellsDistinct(o: CmatObd, blk: nat, j: nat, c: nat)
    requires ValidObd(o) && blk < o.nblk && j < o.n0 && c <= o.n0
    ensures CoordinatesDistinct(ObdCells(o, blk, j, c))
  {
    if c > 0 {
      var i := c - 1;
      CellsDistinct(o, blk, j, i);
      CellsFromCells(o, blk, j, i);
      StoredBelow(o.n0, o.nblk, blk, j, i);
      var last := if Kept(o.n0, o.n, blk, j, i) then [Cell(o, blk, j, i)] else [];
      forall x, y | x in ObdCells(o, blk, j, i) && y in last
        ensures x.row != y.row || x.col != y.col
      {
        var i': nat :| i' < i && PushedFrom(o, x, blk, j, i');
        PushedApart(o, x, blk, j, i', y, blk, j, i);
      }
      DistinctJoin(ObdCells(o, blk, j, i), last);
    }
  }

  lemma {:induction false} ColumnsDistinct(o: CmatObd, blk: nat, c: nat)
    requires ValidObd(o) && blk < o.nblk && c <= o.n0
    ensures CoordinatesDistinct(ObdColumns(o, blk, c))
  {
    if c > 0 {
      var j := c - 1;
      ColumnsDistinct(o, blk, j);
      CellsDistinct(o, blk, j, o.n0);
      ColumnsFromCells(o, blk, j);
      CellsFromCells(o, blk, j, o.n0);
      forall x, y | x in ObdColumns(o, blk, j) && y in ObdCells(o, blk, j, o.n0)
        ensures x.row != y.row || x.col != y.col
      {
        var j': nat, i': nat :| j' < j && PushedFrom(o, x, blk, j', i');
        var i: nat :| i < o.n0 && PushedFrom(o, y, blk, j, i);
        PushedApart(o, x, blk, j', i', y, blk, j, i);
      }
      DistinctJoin(ObdColumns(o, blk, j), ObdCells(o, blk, j, o.n0));
    }
  }

  lemma {:induction false} BlocksDistinct(o: CmatObd, b: nat)
    requires ValidObd(o) && b <= o.nblk
    ensures CoordinatesDistinct(ObdBlocks(o, b))
  {
    if b > 0 {
      var blk := b - 1;
      BlocksDistinct(o, blk);
      ColumnsDistinct(o, blk, o.n0);
      BlocksFromCells(o, blk);
      ColumnsFromCells(o, blk, o.n0);
      forall x, y | x in ObdBlocks(o, blk) && y in ObdColumns(o, blk, o.n0)
        ensures x.row != y.row || x.col != y.col
      {
        var blk': nat, j': nat, i': nat :| blk' < blk && PushedFrom(o, x, blk', j', i');
        var j: nat, i: nat :| j < o.n0 && PushedFrom(o, y, blk, j, i);
        PushedApart(o, x, blk', j', i', y, blk, j, i);
      }
      DistinctJoin(ObdBlocks(o, blk), ObdColumns(o, blk, o.n0));
    }
  }

  /** Conversely, every kept stored value is pushed. */
  lemma {:induction false} CellInCells(o: CmatObd, blk: nat, j: nat, i: nat, c: nat)
    requires ValidObd(o) && blk < o.nblk && j < o.n0 && i < c <= o.n0 && Kept(o.n0, o.n, blk, j, i)
    ensures Cell(o, blk, j, i) in ObdCells(o, blk, j, c)
  {
    if i < c - 1 {
      CellInCells(o, blk, j, i, c - 1);
    }
  }

  lemma {:induction false} CellInColumns(o: CmatObd, blk: nat, j: nat, i: nat, c: nat)
    requires ValidObd(o) && blk < o.nblk && j < c <= o.n0 && i < o.n0 && Kept(o.n0, o.n, blk, j, i)
    ensures Cell(o, blk, j, i) in ObdColumns(o, blk, c)
  {
    if j < c - 1 {
      CellInColumns(o, blk, j, i, c - 1);
    } else {
      CellInCells(o, blk, j, i, o.n0);
    }
  }

  lemma {:induction false} CellInBlocks(o: CmatObd, blk: nat, j: nat, i: nat, b: nat)
    requires ValidObd(o) && blk < b <= o.nblk && j < o.n0 && i < o.n0 && Kept(o.n0, o.n, blk, j, i)
    ensures Cell(o, blk, j, i) in ObdBlocks(o, b)
  {
    var t := Cell(o, blk, j, i);
    assert ObdBlocks(o, b) == ObdBlocks(o, b - 1) + ObdColumns(o, b - 1, o.n0);
    if blk < b - 1 {
      CellInBlocks(o, blk, j, i, b - 1);
      assert t in ObdBlocks(o, b - 1);
    } else {
      CellInColumns(o, blk, j, i, o.n0);
      assert t in ObdColumns(o, b - 1, o.n0);
    }
  }

  /** The expansion holds exactly the triples of the kept stored values: each triple carries
      the value stored at its position, and its coordinates depend on the position alone. */
  lemma ObdEntriesExactly(o: CmatObd)
    requires ValidObd(o)
    ensures forall t :: t in ObdEntries(o) ==> FromCell(o, t)
    ensures forall blk: nat, j: nat, i: nat :: blk < o.nblk && j < o.n0 && i < o.n0 && Kept(o.n0, o.n, blk, j, i) ==>
              Cell(o, blk, j, i) in ObdEntries(o)
  {
    BlocksFromCells(o, o.nblk);
    forall blk: nat, j: nat, i: nat | blk < o.nblk && j < o.n0 && i < o.n0 && Kept(o.n0, o.n, blk, j, i)
      ensures Cell(o, blk, j, i) in ObdEntries(o)
    {
      CellInBlocks(o, blk, j, i, o.nblk);
    }
  }

  /** No row or column index of the expansion is negative or equal to `N`; when the blocks
      fit, `nblk*(n0-1) <= N + 1`, every index lies below `N`. */
  lemma ObdInRange(o: CmatObd)
    requires ValidObd(o)
    ensures forall t :: t in ObdEntries(o) ==> 0 <= t.row && 0 <= t.col && t.row != o.n && t.col != o.n
    ensures o.nblk * (o.n0 - 1) <= o.n + 1 ==> forall t :: t in ObdEntries(o) ==> t.row < o.n && t.col < o.n
  {
    ObdEntriesExactly(o);
    forall t | t in ObdEntries(o)
      ensures 0 <= t.row && 0 <= t.col && t.row != o.n && t.col != o.n
      ensures o.nblk * (o.n0 - 1) <= o.n + 1 ==> t.row < o.n && t.col < o.n
    {
      var blk: nat, j: nat, i: nat :| blk < o.nblk && j < o.n0 && i < o.n0 && Kept(o.n0, o.n, blk, j, i) && t == Cell(o, blk, j, i);
      GlobalBelow(o.n0, o.nblk, blk, i);
      GlobalBelow(o.n0, o.nblk, blk, j);
    }
  }

  /** An index of block `blk` lies at most at `nblk*(n0-1) - 1`. */
  lemma GlobalBelow(n0: nat, nblk: nat, blk: nat, i: nat)
    requires blk < nblk && i < n0
    ensures Global(n0, blk, i) <= nblk * (n0 - 1) - 1
  {
    NonLinear.MulMonotone(n0 - 1, blk, nblk - 1);
    assert (n0 - 1) * (nblk - 1) == nblk * (n0 - 1) - (n0 - 1);
  }

  /** Two kept stored values never land on the same element of the matrix: the corner that
      consecutive blocks share is pushed only from the later block. */
  lemma KeptDistinct(n0: nat, n: int, blk: nat, j: nat, i: nat, blk': nat, j': nat, i': nat)
    requires j < n0 && i < n0 && j' < n0 && i' < n0
    requires Kept(n0, n, blk, j, i) && Kept(n0, n, blk', j', i')
    requires Global(n0, blk, i) == Global(n0, blk', i') && Global(n0, blk, j) == Global(n0, blk', j')
    ensures blk == blk' && j == j' && i == i'
  {
    if blk < blk' {
      LaterBlockMeetsAtCorner(n0, blk, i, blk', i');
      LaterBlockMeetsAtCorner(n0, blk, j, blk', j');
    } else if blk' < blk {
      LaterBlockMeetsAtCorner(n0, blk', i', blk, i);
      LaterBlockMeetsAtCorner(n0, blk', j', blk, j);
    }
  }

  /** An index of a block that an index of a later block equals is the earlier block's last. */
  lemma LaterBlockMeetsAtCorner(n0: nat, blk: nat, i: nat, blk': nat, i': nat)
    requires i < n0 && i' < n0 && blk < blk'
    requires Global(n0, blk, i) == Global(n0, blk', i')
    ensures i == n0 - 1
  {
    var m := n0 - 1;
    NonLinear.MulMonotone(m, blk + 1, blk');
    assert m * (blk + 1) == m * blk + m;
    assert blk * m == m * blk && blk' * m == m * blk';
  }

  /** Hence the expansion never pushes two triples for one element: any two positions of
      what it pushes differ in row or in column. */
  lemma ObdCoordinatesUnique(o: CmatObd)
    requires ValidObd(o)
    ensures forall p, q :: 0 <= p < q < |ObdEntries(o)| ==>
              ObdEntries(o)[p].row != ObdEntries(o)[q].row || ObdEntries(o)[p].col != ObdEntries(o)[q].col
  {
    BlocksDistinct(o, o.nblk);
  }
}
