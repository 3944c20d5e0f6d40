/** The in-place rearrangements of SLISC/arithmetic.h: flip, the cyclic shift of a matrix,
    and diagonals / idiagonals. A `Matrix` is row-major: element `(i, j)` is
    `a[RSub2Ind(nc, i, j)]`, so every row is a contiguous run of `nc` elements. */
module Rearrange {

  import opened NonLinear
  import opened ScalarArith
  import opened CopyPrimitives
  import opened Containers

  // ---------------------------------------------------------------------------
  // flip

  /** The sequence read back to front. */
  function Reversed(s: seq<int>): (r: seq<int>)
    ensures |r| == |s|
  {
    seq(|s|, i requires 0 <= i < |s| => s[|s| - 1 - i])
  }

  /** Reversing twice gives the sequence back. */
  lemma ReversedInvolution(s: seq<int>)
    ensures Reversed(Reversed(s)) == s
  {
    forall i | 0 <= i < |s|
      ensures Reversed(Reversed(s))[i] == s[i]
    {
      assert Reversed(s)[|s| - 1 - i] == s[i];
    }
  }

  /** flip(v): the elements `i` and `n - 1 - i` are swapped for every `i < n / 2`. */
  method Flip(v: Vector)
    modifies v.a
    ensures v.a[..] == Reversed(old(v.a[..]))
  {
    var n := v.Size();
    for i := 0 to n / 2
      invariant forall k :: 0 <= k < n ==> v.a[k] == if k < i || n - i <= k then old(v.a[n - 1 - k]) else old(v.a[k])
    {
      var ind := n - i - 1;
      var temp := v.a[i];
      v.a[i] := v.a[ind];
      v.a[ind] := temp;
    }
  }

  /** flip(v, v0): `v` is resized to `v0`'s size and receives `v0` back to front. The two
      must not share their buffer, as two distinct vectors never do. */
  method FlipInto(v: Vector, v0: Vector)
    requires v.a != v0.a
    modifies v, v.a
    ensures v.a[..] == Reversed(old(v0.a[..]))
    ensures v0.a == old(v0.a) && v0.a[..] == old(v0.a[..])
  {
    var n := v0.Size();
    v.Resize(n);
    for i := 0 to n
      invariant v.Size() == n && (v.a == old(v.a) || fresh(v.a))
      invariant v0.a[..] == old(v0.a[..])
      invariant forall k :: 0 <= k < i ==> v.a[k] == v0.a[n - k - 1]
    {
      v.a[i] := v0.a[n - i - 1];
    }
  }

  // ---------------------------------------------------------------------------
  // Rotating a run of elements to the left

  /** The index `x` of a run of length `m` wrapped back into it, for `0 <= x < 2*m`. */
  function Wrapped(x: int, m: int): int
  {
    if x < m then x else x - m
  }

  /** `t` with its run `[off, off + len)` rotated left by `n`: the element at `k` in the
      run comes from `k + n`, wrapped back into the run; everything else stays. */
  function Spliced(t: seq<int>, off: nat, len: nat, n: nat): (r: seq<int>)
    requires n <= len && off + len <= |t|
    ensures |r| == |t|
  {
    seq(|t|, k requires 0 <= k < |t| =>
      if k < off || off + len <= k then t[k]
      else if k + n < off + len then t[k + n]
      else t[k + n - len])
  }

  /** Element `k` of the spliced sequence, with the run index wrapped. */
  lemma SplicedAt(t: seq<int>, off: nat, len: nat, n: nat, k: nat)
    requires n <= len && off + len <= |t| && k < |t|
    ensures Spliced(t, off, len, n)[k] ==
              if off <= k < off + len then t[off + Wrapped(k - off + n, len)] else t[k]
  {
  }

  /** The rotated run is the run's tail followed by its head. */
  lemma SplicedAsRuns(t: seq<int>, off: nat, len: nat, n: nat)
    requires n <= len && off + len <= |t|
    ensures Spliced(t, off, len, n) == t[..off] + t[off + n..off + len] + t[off..off + n] + t[off + len..]
  {
    var r := t[..off] + t[off + n..off + len] + t[off..off + n] + t[off + len..];
    forall k | 0 <= k < |t|
      ensures Spliced(t, off, len, n)[k] == r[k]
    {
      var head := t[..off] + t[off + n..off + len];
      if k < off + len - n {
        assert r[k] == head[k];
      } else if k < off + len {
        assert r[k] == (head + t[off..off + n])[k] == t[off..off + n][k - (off + len - n)];
      } else {
        assert r[k] == t[off + len..][k - (off + len)];
      }
    }
  }

  /** Rotating by nothing or by the whole run leaves the sequence as it is. */
  lemma SplicedWhole(t: seq<int>, off: nat, len: nat, n: nat)
    requires n <= len && off + len <= |t| && (n == 0 || n == len)
    ensures Spliced(t, off, len, n) == t
  {
    forall k | 0 <= k < |t|
      ensures Spliced(t, off, len, n)[k] == t[k]
    {
      if off <= k < off + len {
        assert off + Wrapped(k - off + n, len) == k;
      }
    }
  }

  /** memcpy(a + dst, a + src, cnt) between overlapping ranges with `dst <= src`, read as
      the forward element move it is meant to be. */
  method MoveDown(a: array<int>, dst: nat, src: nat, cnt: nat)
    requires dst <= src && src + cnt <= a.Length
    modifies a
    ensures a[..] == old(a[..])[..dst] + old(a[..])[src..src + cnt] + old(a[..])[dst + cnt..]
  {
    ghost var s := a[..];
    for k := 0 to cnt
      invariant forall q {:trigger a[q]} :: 0 <= q < a.Length && !(dst <= q < dst + k) ==> a[q] == s[q]
      invariant forall q {:trigger a[q]} :: dst <= q < dst + k ==> a[q] == s[q + (src - dst)]
    {
      a[dst + k] := a[src + k];
    }
    MovedAsRuns(s, a[..], dst, src, cnt);
  }

  /** A pointwise description of the forward move, as runs of the original sequence. */
  lemma MovedAsRuns(s: seq<int>, t: seq<int>, dst: nat, src: nat, cnt: nat)
    requires dst <= src && src + cnt <= |s| == |t|
    requires forall q {:trigger t[q]} :: 0 <= q < |t| && !(dst <= q < dst + cnt) ==> t[q] == s[q]
    requires forall q {:trigger t[q]} :: dst <= q < dst + cnt ==> t[q] == s[q + (src - dst)]
    ensures t == s[..dst] + s[src..src + cnt] + s[dst + cnt..]
  {
    var r := s[..dst] + s[src..src + cnt] + s[dst + cnt..];
    forall q | 0 <= q < |t|
      ensures t[q] == r[q]
    {
      if q < dst {
        assert r[q] == s[q];
      } else if q < dst + cnt {
        assert r[q] == s[src..src + cnt][q - dst];
      } else {
        assert r[q] == s[dst + cnt..][q - (dst + cnt)];
      }
    }
  }

  /** memcpy(a + at, temp, n): the temporary written back over `[at, at + n)`. */
  method CopyBack(a: array<int>, at: nat, temp: array<int>)
    requires a != temp && at + temp.Length <= a.Length
    modifies a
    ensures a[..] == old(a[..])[..at] + temp[..] + old(a[..])[at + temp.Length..]
  {
    ghost var s := a[..];
    VecCpy(a, at, temp, 0, temp.Length);
    WrittenAsRuns(s, temp[..], a[..], at);
  }

  /** A pointwise description of a copy of `w` over `[at, at + |w|)`, as runs. */
  lemma WrittenAsRuns(s: seq<int>, w: seq<int>, t: seq<int>, at: nat)
    requires at + |w| <= |s| == |t|
    requires forall q {:trigger t[q]} :: 0 <= q < |t| ==> t[q] == (if at <= q < at + |w| then w[q - at] else s[q])
    ensures t == s[..at] + w + s[at + |w|..]
  {
    var r := s[..at] + w + s[at + |w|..];
    forall q | 0 <= q < |t|
      ensures t[q] == r[q]
    {
      if q < at {
        assert r[q] == s[q];
      } else if q < at + |w| {
        assert r[q] == w[q - at];
      } else {
        assert r[q] == s[at + |w|..][q - (at + |w|)];
      }
    }
  }

  /** memcpy(temp, a + off, n) into a fresh temporary. */
  method SaveRun(a: array<int>, off: nat, n: nat) returns (temp: array<int>)
    requires off + n <= a.Length
    ensures fresh(temp) && temp[..] == a[off..off + n]
  {
    temp := new int[n];
    VecCpy(temp, 0, a, off, n);
    assert temp[..] == a[off..off + n];
  }

  /** The three copies of the source's row rotation: the first `n` elements go to a
      temporary, the other `len - n` move down by `n`, and the temporary goes to the end. */
  method RotateLeft(a: array<int>, off: nat, len: nat, n: nat)
    requires n <= len && off + len <= a.Length
    modifies a
    ensures a[..] == Spliced(old(a[..]), off, len, n)
  {
    ghost var s := a[..];
    var temp := SaveRun(a, off, n);
    ghost var saved := temp[..];
    MoveDown(a, off, off + n, len - n);
    ghost var moved := a[..];
    assert moved == s[..off] + s[off + n..off + len] + s[off + len - n..];
    assert temp[..] == saved && temp.Length == n;
    CopyBack(a, off + len - n, temp);
    ghost var fin := a[..];
    assert fin == moved[..off + len - n] + saved + moved[off + len..];
    RotationAssembled(s, saved, moved, fin, off, len, n);
  }

  /** The three stages of the rotation put together: the run's tail moved down, then its
      head copied back behind it, give the spliced sequence. */
  lemma RotationAssembled(s: seq<int>, saved: seq<int>, moved: seq<int>, fin: seq<int>, off: nat, len: nat, n: nat)
    requires n <= len && off + len <= |s|
    requires saved == s[off..off + n]
    requires moved == s[..off] + s[off + n..off + len] + s[off + len - n..]
    requires fin == moved[..off + len - n] + saved + moved[off + len..]
    ensures fin == Spliced(s, off, len, n)
  {
    SplicedAsRuns(s, off, len, n);
    assert moved[..off + len - n] == s[..off] + s[off + n..off + len];
    assert moved[off + len..] == s[off + len..];
  }

  // ---------------------------------------------------------------------------
  // Rotating the rows of a matrix

  /** How far row `i` is rotated to the left. */
  datatype Amount = Fixed(n: int) | ByRow | ByRowBack(nc: int)

  function AmountOf(am: Amount, i: nat): int
  {
    match am
    case Fixed(n) => n
    case ByRow => i
    case ByRowBack(nc) => nc - i
  }

  /** The row-major buffer `s` with each of its first `r` rows rotated left by its amount,
      and the other rows as they were. */
  function RowsRotated(s: seq<int>, Nc: nat, r: nat, am: Amount): (t: seq<int>)
    ensures |t| == |s|
  {
    seq(|s|, k requires 0 <= k < |s| =>
      if Nc > 0 && k / Nc < r then Entry(s, Nc, k / Nc, Wrapped(k % Nc + AmountOf(am, k / Nc), Nc)) else s[k])
  }

  /** Element `(i, j)` after rotating the first `r` rows. */
  lemma RowsRotatedAt(s: seq<int>, Nr: nat, Nc: nat, r: nat, am: Amount, i: nat, j: nat)
    requires |s| == Nr * Nc && i < Nr && j < Nc
    ensures Entry(RowsRotated(s, Nc, r, am), Nc, i, j) ==
              if i < r then Entry(s, Nc, i, Wrapped(j + AmountOf(am, i), Nc)) else Entry(s, Nc, i, j)
  {
    RSub2IndBijective(Nr, Nc, i, j);
  }

  /** Rotating row `row` of the flat buffer `t` touches that row only. */
  lemma SplicedRowAt(t: seq<int>, Nr: nat, Nc: nat, row: nat, n: nat, i: nat, j: nat)
    requires |t| == Nr * Nc && row < Nr && n <= Nc && i < Nr && j < Nc
    ensures Nc * row + Nc <= |t|
    ensures Entry(Spliced(t, Nc * row, Nc, n), Nc, i, j) ==
              if i == row then Entry(t, Nc, i, Wrapped(j + n, Nc)) else Entry(t, Nc, i, j)
  {
    RowStep(Nc, row);
    MulMonotone(Nc, row + 1, Nr);
    RSub2IndBijective(Nr, Nc, i, j);
    SplicedAt(t, Nc * row, Nc, n, RSub2Ind(Nc, i, j));
    if i < row {
      MulMonotone(Nc, i + 1, row);
      RowStep(Nc, i);
    } else if i > row {
      MulMonotone(Nc, row + 1, i);
    } else {
      RSub2IndBijective(Nr, Nc, i, Wrapped(j + n, Nc));
    }
  }

  /** Rotating row `r` next extends the rotated prefix by one row. */
  lemma RowsRotatedStep(s: seq<int>, Nr: nat, Nc: nat, r: nat, am: Amount)
    requires |s| == Nr * Nc && r < Nr && 0 <= AmountOf(am, r) <= Nc
    ensures Nc * r + Nc <= |s|
    ensures Spliced(RowsRotated(s, Nc, r, am), Nc * r, Nc, AmountOf(am, r)) == RowsRotated(s, Nc, r + 1, am)
  {
    var n := AmountOf(am, r);
    RowStep(Nc, r);
    MulMonotone(Nc, r + 1, Nr);
    var t := RowsRotated(s, Nc, r, am);
    var t' := Spliced(t, Nc * r, Nc, n);
    forall i, j | 0 <= i < Nr && 0 <= j < Nc
      ensures Entry(t', Nc, i, j) == Entry(RowsRotated(s, Nc, r + 1, am), Nc, i, j)
    {
      SplicedRowAt(t, Nr, Nc, r, n, i, j);
      RowsRotatedAt(s, Nr, Nc, r + 1, am, i, j);
      if i == r {
        var j' := Wrapped(j + n, Nc);
        RowsRotatedAt(s, Nr, Nc, r, am, i, j');
      } else {
        RowsRotatedAt(s, Nr, Nc, r, am, i, j);
      }
    }
    EqualByEntries(t', RowsRotated(s, Nc, r + 1, am), Nr, Nc);
  }

  /** Rotating rows by nothing or by a whole row leaves the buffer as it was. */
  lemma RowsRotatedByNothing(s: seq<int>, Nr: nat, Nc: nat, r: nat, am: Amount)
    requires |s| == Nr * Nc
    requires forall i :: 0 <= i < r && i < Nr ==> AmountOf(am, i) == 0 || AmountOf(am, i) == Nc
    ensures RowsRotated(s, Nc, r, am) == s
  {
    forall i, j | 0 <= i < Nr && 0 <= j < Nc
      ensures Entry(RowsRotated(s, Nc, r, am), Nc, i, j) == Entry(s, Nc, i, j)
    {
      RowsRotatedAt(s, Nr, Nc, r, am, i, j);
    }
    EqualByEntries(RowsRotated(s, Nc, r, am), s, Nr, Nc);
  }

  /** Rotating every row by `n` and then by the rest of the row restores the buffer. */
  lemma {:induction false} RowsRotatedInverse(s: seq<int>, Nr: nat, Nc: nat, am: Amount, back: Amount)
    requires |s| == Nr * Nc
    requires forall i :: 0 <= i < Nr ==> 0 <= AmountOf(am, i) <= Nc && AmountOf(back, i) == Nc - AmountOf(am, i)
    ensures RowsRotated(RowsRotated(s, Nc, Nr, am), Nc, Nr, back) == s
  {
    var t := RowsRotated(s, Nc, Nr, am);
    var u := RowsRotated(t, Nc, Nr, back);
    forall i, j | 0 <= i < Nr && 0 <= j < Nc
      ensures Entry(u, Nc, i, j) == Entry(s, Nc, i, j)
    {
      var j' := Wrapped(j + AmountOf(back, i), Nc);
      RowsRotatedAt(t, Nr, Nc, Nr, back, i, j);
      RowsRotatedAt(s, Nr, Nc, Nr, am, i, j');
      assert Wrapped(j' + AmountOf(am, i), Nc) == j;
    }
    EqualByEntries(u, s, Nr, Nc);
  }

  /** The source's row loop: rows `from` to `Nr - 1` are rotated one after the other, each
      with a temporary of its own amount. */
  method RotateRows(a: array<int>, Nr: nat, Nc: nat, am: Amount, from: nat)
    requires a.Length == Nr * Nc && from <= Nr
    requires forall i :: from <= i < Nr ==> 0 <= AmountOf(am, i) <= Nc
    requires RowsRotated(a[..], Nc, from, am) == a[..]
    modifies a
    ensures a[..] == RowsRotated(old(a[..]), Nc, Nr, am)
  {
    ghost var s := a[..];
    for i := from to Nr
      invariant a[..] == RowsRotated(s, Nc, i, am)
    {
      RowsRotatedStep(s, Nr, Nc, i, am);
      RotateLeft(a, Nc * i, Nc, AmountOf(am, i));
    }
  }

  /** `Wrapped` is the remainder on the range it is meant for. */
  lemma WrappedIsMod(x: int, m: int)
    requires 0 <= x < 2 * m
    ensures Wrapped(x, m) == x % m
  {
    if x < m {
      DivModUnique(x, 0, x, m);
    } else {
      DivModUnique(x, 1, x - m, m);
    }
  }

  // ---------------------------------------------------------------------------
  // diagonals and idiagonals

  /** diagonals(a): row `i` is rotated `i` places to the left, for every row from `1`. A
      rotation by more than a row would copy past it, so there are at most `Nc + 1` rows. */
  method Diagonals(m: Matrix)
    requires m.Valid() && m.nr <= m.nc + 1
    modifies m.a
    ensures m.a[..] == RowsRotated(old(m.a[..]), m.nc, m.nr, ByRow)
  {
    var Nr, Nc := m.nr, m.nc;
    if Nr == 0 {
      RowsRotatedByNothing(m.a[..], Nr, Nc, Nr, ByRow);
      return;
    }
    RowsRotatedByNothing(m.a[..], Nr, Nc, 1, ByRow);
    RotateRows(m.a, Nr, Nc, ByRow, 1);
  }

  /** idiagonals(a): row `i` is rotated `Nc - i` places to the left, which is `i` places to
      the right. */
  method Idiagonals(m: Matrix)
    requires m.Valid() && m.nr <= m.nc + 1
    modifies m.a
    ensures m.a[..] == RowsRotated(old(m.a[..]), m.nc, m.nr, ByRowBack(m.nc))
  {
    var Nr, Nc := m.nr, m.nc;
    if Nr == 0 {
      RowsRotatedByNothing(m.a[..], Nr, Nc, Nr, ByRowBack(Nc));
      return;
    }
    RowsRotatedByNothing(m.a[..], Nr, Nc, 1, ByRowBack(Nc));
    RotateRows(m.a, Nr, Nc, ByRowBack(Nc), 1);
  }

  /** After diagonals, column `j` of row `i` holds the element `(i, (i + j) mod Nc)`: column `0`
      holds the diagonal, column `j` the `j`-th superdiagonal wrapped around. */
  lemma DiagonalsAt(s: seq<int>, Nr: nat, Nc: nat, i: nat, j: nat)
    requires |s| == Nr * Nc && Nr <= Nc + 1 && i < Nr && j < Nc
    ensures Entry(RowsRotated(s, Nc, Nr, ByRow), Nc, i, j) == Entry(s, Nc, i, (i + j) % Nc)
    ensures i < Nc ==> Entry(RowsRotated(s, Nc, Nr, ByRow), Nc, i, 0) == Entry(s, Nc, i, i)
  {
    RowsRotatedAt(s, Nr, Nc, Nr, ByRow, i, j);
    WrappedIsMod(j + i, Nc);
    if i < Nc {
      RowsRotatedAt(s, Nr, Nc, Nr, ByRow, i, 0);
    }
  }

  /** idiagonals undoes diagonals, and diagonals undoes idiagonals. */
  lemma DiagonalsInverse(s: seq<int>, Nr: nat, Nc: nat)
    requires |s| == Nr * Nc && Nr <= Nc + 1
    ensures RowsRotated(RowsRotated(s, Nc, Nr, ByRow), Nc, Nr, ByRowBack(Nc)) == s
    ensures RowsRotated(RowsRotated(s, Nc, Nr, ByRowBack(Nc)), Nc, Nr, ByRow) == s
  {
    RowsRotatedInverse(s, Nr, Nc, ByRow, ByRowBack(Nc));
    RowsRotatedInverse(s, Nr, Nc, ByRowBack(Nc), ByRow);
  }

  // ---------------------------------------------------------------------------
  // shift

  /** Where element `k` of an `Nr` by `Nc` matrix shifted by `nshift` comes from. With
      `dim == 2` column `j` receives column `(j - nshift) mod Nc`: the columns move `nshift`
      places to the right. Otherwise row `i` receives row `(i - nshift) mod Nr`: the rows move
      `nshift` places down. A negative `nshift` moves the other way. */
  function ShiftSource(Nr: nat, Nc: nat, nshift: int, dim: int, k: int): (src: int)
    requires 0 <= k < Nr * Nc
    ensures 0 <= src < Nr * Nc
  {
    RSub2IndOnto(Nr, Nc, k);
    if dim == 2 then
      RSub2IndBijective(Nr, Nc, k / Nc, (k % Nc - nshift) % Nc);
      RSub2Ind(Nc, k / Nc, (k % Nc - nshift) % Nc)
    else
      RSub2IndBijective(Nr, Nc, (k / Nc - nshift) % Nr, k % Nc);
      RSub2Ind(Nc, (k / Nc - nshift) % Nr, k % Nc)
  }

  /** The matrix `s` shifted cyclically by `nshift` along `dim`. */
  function Shifted(s: seq<int>, Nr: nat, Nc: nat, nshift: int, dim: int): (t: seq<int>)
    ensures |t| == |s|
  {
    seq(|s|, k requires 0 <= k < |s| =>
      if |s| != Nr * Nc then s[k] else s[ShiftSource(Nr, Nc, nshift, dim, k)])
  }

  /** Element `(i, j)` of the shifted matrix. */
  lemma ShiftedAt(s: seq<int>, Nr: nat, Nc: nat, nshift: int, dim: int, i: nat, j: nat)
    requires |s| == Nr * Nc && i < Nr && j < Nc
    ensures Entry(Shifted(s, Nr, Nc, nshift, dim), Nc, i, j) ==
              if dim == 2 then Entry(s, Nc, i, (j - nshift) % Nc) else Entry(s, Nc, (i - nshift) % Nr, j)
  {
    var k := RSub2Ind(Nc, i, j);
    RSub2IndBijective(Nr, Nc, i, j);
    var q, r := k / Nc, k % Nc;
    assert q == i && r == j;
    if dim == 2 {
      RSub2IndBijective(Nr, Nc, i, (j - nshift) % Nc);
    } else {
      RSub2IndBijective(Nr, Nc, (i - nshift) % Nr, j);
    }
  }

  /** Shifting by nothing takes every element from where it is. */
  lemma ShiftSourceZero(Nr: nat, Nc: nat, nshift: int, dim: int, k: int)
    requires 0 <= k < Nr * Nc && nshift == 0
    ensures ShiftSource(Nr, Nc, nshift, dim, k) == k
  {
    RSub2IndOnto(Nr, Nc, k);
    DivModUnique(k % Nc, 0, k % Nc, Nc);
    DivModUnique(k / Nc, 0, k / Nc, Nr);
  }

  /** Following the sources of two shifts is following the source of their sum. */
  lemma ShiftSourceCompose(Nr: nat, Nc: nat, n1: int, n2: int, dim: int, k: int)
    requires 0 <= k < Nr * Nc
    ensures ShiftSource(Nr, Nc, n1, dim, ShiftSource(Nr, Nc, n2, dim, k)) == ShiftSource(Nr, Nc, n1 + n2, dim, k)
  {
    RSub2IndOnto(Nr, Nc, k);
    var i, j := k / Nc, k % Nc;
    var k2 := ShiftSource(Nr, Nc, n2, dim, k);
    if dim == 2 {
      var j2 := (j - n2) % Nc;
      RSub2IndBijective(Nr, Nc, i, j2);
      assert k2 == RSub2Ind(Nc, i, j2) && k2 / Nc == i && k2 % Nc == j2;
      ModSubTwice(j, n1, n2, Nc);
      assert ShiftSource(Nr, Nc, n1, dim, k2) == RSub2Ind(Nc, i, (j2 - n1) % Nc);
    } else {
      var i2 := (i - n2) % Nr;
      RSub2IndBijective(Nr, Nc, i2, j);
      assert k2 == RSub2Ind(Nc, i2, j) && k2 / Nc == i2 && k2 % Nc == j;
      ModSubTwice(i, n1, n2, Nr);
      assert ShiftSource(Nr, Nc, n1, dim, k2) == RSub2Ind(Nc, (i2 - n1) % Nr, j);
    }
  }

  /** A shift by nothing leaves the matrix as it was. */
  lemma ShiftedZero(s: seq<int>, Nr: nat, Nc: nat, nshift: int, dim: int)
    requires |s| == Nr * Nc && nshift == 0
    ensures Shifted(s, Nr, Nc, nshift, dim) == s
  {
    forall k | 0 <= k < |s|
      ensures Shifted(s, Nr, Nc, nshift, dim)[k] == s[k]
    {
      ShiftSourceZero(Nr, Nc, nshift, dim, k);
    }
  }

  /** Two shifts along the same dimension add up. */
  lemma ShiftedCompose(s: seq<int>, Nr: nat, Nc: nat, n1: int, n2: int, dim: int)
    requires |s| == Nr * Nc
    ensures Shifted(Shifted(s, Nr, Nc, n1, dim), Nr, Nc, n2, dim) == Shifted(s, Nr, Nc, n1 + n2, dim)
  {
    var t := Shifted(s, Nr, Nc, n1, dim);
    forall k | 0 <= k < |s|
      ensures Shifted(t, Nr, Nc, n2, dim)[k] == Shifted(s, Nr, Nc, n1 + n2, dim)[k]
    {
      ShiftSourceCompose(Nr, Nc, n1, n2, dim, k);
    }
  }

  /** Shifting back by the same amount restores the matrix. */
  lemma ShiftedInverse(s: seq<int>, Nr: nat, Nc: nat, nshift: int, dim: int)
    requires |s| == Nr * Nc
    ensures Shifted(Shifted(s, Nr, Nc, nshift, dim), Nr, Nc, -nshift, dim) == s
  {
    var t := Shifted(s, Nr, Nc, nshift, dim);
    forall k | 0 <= k < |s|
      ensures Shifted(t, Nr, Nc, -nshift, dim)[k] == s[k]
    {
      ShiftSourceCompose(Nr, Nc, nshift, -nshift, dim, k);
      ShiftSourceZero(Nr, Nc, nshift + -nshift, dim, k);
    }
  }

  /** The source turns a shift by `nshift != 0` along a dimension of length `N` into a
      rotation to the left by `n`; index `j` then reads from `(j - nshift) mod N`. */
  lemma ShiftAmount(nshift: int, N: nat, n: int, j: nat)
    requires N > 0 && nshift != 0 && j < N
    requires n == if nshift < 0 then CRem(-nshift, N) else N - CRem(nshift, N)
    ensures 0 <= n <= N && Wrapped(j + n, N) == (j - nshift) % N
  {
    if nshift < 0 {
      ModPositive(-nshift, N);
      assert n == (-nshift) % N;
      WrappedIsMod(j + n, N);
      ModOfSum(-nshift, j, N);
      assert Wrapped(j + n, N) == ((-nshift) % N + j) % N == (j - nshift) % N;
    } else {
      ModPositive(nshift, N);
      var c := nshift % N;
      var q := nshift / N;
      assert n == N - c;
      WrappedIsMod(j + n, N);
      ModShift(j - c, 1, N);
      assert Wrapped(j + n, N) == (j - c) % N;
      assert nshift == q * N + c;
      ModShift(j - c, -q, N);
      assert (j - c) + (-q) * N == j - nshift;
    }
  }

  /** Shifting the columns is rotating every row left by the source's amount. */
  lemma ShiftColumnsAsRows(s: seq<int>, Nr: nat, Nc: nat, nshift: int, n: int)
    requires |s| == Nr * Nc && Nc > 0 && nshift != 0
    requires n == if nshift < 0 then CRem(-nshift, Nc) else Nc - CRem(nshift, Nc)
    ensures 0 <= n <= Nc && Shifted(s, Nr, Nc, nshift, 2) == RowsRotated(s, Nc, Nr, Fixed(n))
  {
    ShiftAmount(nshift, Nc, n, 0);
    forall i, j | 0 <= i < Nr && 0 <= j < Nc
      ensures Entry(Shifted(s, Nr, Nc, nshift, 2), Nc, i, j) == Entry(RowsRotated(s, Nc, Nr, Fixed(n)), Nc, i, j)
    {
      ShiftedAt(s, Nr, Nc, nshift, 2, i, j);
      RowsRotatedAt(s, Nr, Nc, Nr, Fixed(n), i, j);
      ShiftAmount(nshift, Nc, n, j);
    }
    EqualByEntries(Shifted(s, Nr, Nc, nshift, 2), RowsRotated(s, Nc, Nr, Fixed(n)), Nr, Nc);
  }

  /** Rotating the whole buffer left by `n` rows moves row `(i + n) mod Nr` to row `i`. */
  lemma SplicedRowsAt(s: seq<int>, Nr: nat, Nc: nat, n: nat, i: nat, j: nat)
    requires |s| == Nr * Nc && n <= Nr && i < Nr && j < Nc
    ensures n * Nc <= Nr * Nc
    ensures Entry(Spliced(s, 0, Nr * Nc, n * Nc), Nc, i, j) == Entry(s, Nc, Wrapped(i + n, Nr), j)
  {
    MulMonotone(Nc, n, Nr);
    MulComm(Nc, n);
    MulComm(Nc, Nr);
    RSub2IndBijective(Nr, Nc, i, j);
    SplicedAt(s, 0, Nr * Nc, n * Nc, RSub2Ind(Nc, i, j));
    MulDistributes(Nc, i, n);
    if i + n < Nr {
      LinearBelow(Nc, Nr, j, i + n);
    } else {
      MulMonotone(Nc, Nr, i + n);
      MulDistributes(Nc, i + n, Nr);
      RSub2IndBijective(Nr, Nc, i + n - Nr, j);
    }
  }

  /** Shifting the rows is rotating the whole buffer left by the source's amount of rows. */
  lemma ShiftRowsAsSplice(s: seq<int>, Nr: nat, Nc: nat, nshift: int, n: int, dim: int)
    requires |s| == Nr * Nc && Nr > 0 && nshift != 0 && dim != 2
    requires n == if nshift < 0 then CRem(-nshift, Nr) else Nr - CRem(nshift, Nr)
    ensures 0 <= n <= Nr && n * Nc <= Nr * Nc
    ensures Shifted(s, Nr, Nc, nshift, dim) == Spliced(s, 0, Nr * Nc, n * Nc)
  {
    ShiftAmount(nshift, Nr, n, 0);
    MulMonotone(Nc, n, Nr);
    MulComm(Nc, n);
    MulComm(Nc, Nr);
    forall i, j | 0 <= i < Nr && 0 <= j < Nc
      ensures Entry(Shifted(s, Nr, Nc, nshift, dim), Nc, i, j) == Entry(Spliced(s, 0, Nr * Nc, n * Nc), Nc, i, j)
    {
      ShiftedAt(s, Nr, Nc, nshift, dim, i, j);
      SplicedRowsAt(s, Nr, Nc, n, i, j);
      ShiftAmount(nshift, Nr, n, i);
    }
    EqualByEntries(Shifted(s, Nr, Nc, nshift, dim), Spliced(s, 0, Nr * Nc, n * Nc), Nr, Nc);
  }

  /** shift(a, nshift, dim): a cyclic shift of the columns (`dim == 2`) or of the rows (any
      other `dim`), done as a left rotation of each row or of the whole buffer. The source
      takes the remainder by the length of the shifted dimension, so that length must not be
      zero when there is anything to shift. */
  method Shift(m: Matrix, nshift: int, dim: int)
    requires m.Valid()
    requires nshift != 0 ==> if dim == 2 then m.nc > 0 else m.nr > 0
    modifies m.a
    ensures m.a[..] == Shifted(old(m.a[..]), m.nr, m.nc, nshift, dim)
  {
    var Nr, Nc := m.nr, m.nc;
    ghost var s := m.a[..];
    if nshift == 0 {
      ShiftedZero(s, Nr, Nc, nshift, dim);
      return;
    }
    if dim == 2 {
      var n := if nshift < 0 then CRem(-nshift, Nc) else Nc - CRem(nshift, Nc);
      ShiftColumnsAsRows(s, Nr, Nc, nshift, n);
      RowsRotatedByNothing(s, Nr, Nc, 0, Fixed(n));
      if n == 0 || n == Nc {
        RowsRotatedByNothing(s, Nr, Nc, Nr, Fixed(n));
        return;
      }
      RotateRows(m.a, Nr, Nc, Fixed(n), 0);
    } else {
      var n := if nshift < 0 then CRem(-nshift, Nr) else Nr - CRem(nshift, Nr);
      ShiftRowsAsSplice(s, Nr, Nc, nshift, n, dim);
      if n == 0 || n == Nr {
        SplicedWhole(s, 0, Nr * Nc, n * Nc);
        return;
      }
      RotateLeft(m.a, 0, Nr * Nc, n * Nc);
    }
  }
}
