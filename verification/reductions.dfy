/** The reductions of SLISC/arithmetic.h: sum, count, max, max with index, and cumsum.
    Each method is the source's accumulator loop, proved against a function of the input. */
module Reductions {

  import opened Containers

  // ---------------------------------------------------------------------------
  // sum

  /** The left-to-right total of a sequence. */
  function Total(s: seq<int>): int
  {
    if |s| == 0 then 0 else Total(s[..|s| - 1]) + s[|s| - 1]
  }

  /** The total of a concatenation is the sum of the totals. */
  lemma {:induction false} TotalAppend(s: seq<int>, t: seq<int>)
    ensures Total(s + t) == Total(s) + Total(t)
    decreases |t|
  {
    if |t| == 0 {
      assert s + t == s;
    } else {
      var n := |t| - 1;
      assert (s + t)[..|s + t| - 1] == s + t[..n];
      assert (s + t)[|s + t| - 1] == t[n];
      TotalAppend(s, t[..n]);
    }
  }

  /** sum(v): the accumulator holds the total of the elements seen so far. */
  method Sum(v: Vector) returns (r: int)
    ensures r == Total(v.a[..])
  {
    var n := v.Size();
    r := 0;
    for i := 0 to n
      invariant r == Total(v.a[..i])
    {
      assert v.a[..i + 1][..i] == v.a[..i];
      r := r + v.a[i];
    }
    assert v.a[..n] == v.a[..];
  }

  // ---------------------------------------------------------------------------
  // count

  /** The number of `true` entries of a sequence of flags. */
  function Trues(s: seq<bool>): (c: nat)
    ensures c <= |s|
  {
    if |s| == 0 then 0 else Trues(s[..|s| - 1]) + (if s[|s| - 1] then 1 else 0)
  }

  /** All entries are true exactly when the count is the length; none is exactly when the
      count is zero. */
  lemma {:induction false} TruesExtremes(s: seq<bool>)
    ensures Trues(s) == |s| <==> forall i :: 0 <= i < |s| ==> s[i]
    ensures Trues(s) == 0 <==> forall i :: 0 <= i < |s| ==> !s[i]
  {
    if |s| > 0 {
      var n := |s| - 1;
      TruesExtremes(s[..n]);
      assert forall i :: 0 <= i < n ==> s[..n][i] == s[i];
    }
  }

  /** count(v) of a VecBool: each `true` adds one. */
  method Count(v: array<bool>) returns (c: int)
    ensures c == Trues(v[..])
    ensures 0 <= c <= v.Length
  {
    var n := v.Length;
    c := 0;
    for i := 0 to n
      invariant c == Trues(v[..i])
    {
      assert v[..i + 1][..i] == v[..i];
      c := c + (if v[i] then 1 else 0);
    }
    assert v[..n] == v[..];
  }

  // ---------------------------------------------------------------------------
  // max

  /** The running maximum of a non-empty sequence: an element that no element exceeds. */
  function MaxOf(s: seq<int>): (m: int)
    requires |s| >= 1
    ensures m in s
    ensures forall i :: 0 <= i < |s| ==> s[i] <= m
  {
    if |s| == 1 then s[0]
    else
      var m := MaxOf(s[..|s| - 1]);
      assert forall i :: 0 <= i < |s| - 1 ==> s[..|s| - 1][i] == s[i];
      if s[|s| - 1] > m then s[|s| - 1] else m
  }

  /** The index the strict comparison keeps: the first position holding the maximum. */
  function FirstMaxIndex(s: seq<int>): (k: nat)
    requires |s| >= 1
    ensures k < |s| && s[k] == MaxOf(s)
    ensures forall i :: 0 <= i < k ==> s[i] < s[k]
  {
    if |s| == 1 then 0
    else
      var k := FirstMaxIndex(s[..|s| - 1]);
      assert forall i :: 0 <= i < |s| - 1 ==> s[..|s| - 1][i] == s[i];
      if s[|s| - 1] > s[k] then |s| - 1 else k
  }

  /** max(v), with at least one element. */
  method Max(v: Vector) returns (val: int)
    requires v.Size() >= 1
    ensures val == MaxOf(v.a[..])
  {
    var n := v.Size();
    val := v.a[0];
    for i := 1 to n
      invariant val == MaxOf(v.a[..i])
    {
      assert v.a[..i + 1][..i] == v.a[..i];
      if v.a[i] > val {
        val := v.a[i];
      }
    }
    assert v.a[..n] == v.a[..];
  }

  /** What max(ind, v) leaves in `ind`: it is written only when a later element is strictly
      greater than the running maximum, so it keeps the caller's `ind0` when the first
      element is the maximum. */
  function MaxIndAsWritten(s: seq<int>, ind0: int): (ind: int)
    requires |s| >= 1
    ensures ind != ind0 ==> 1 <= ind < |s| && s[ind] == MaxOf(s)
  {
    var k := FirstMaxIndex(s);
    if k == 0 then ind0 else k
  }

  /** max(ind, v) as written: `ind` in, `ind` out. */
  method MaxInd(v: Vector, ind0: int) returns (val: int, ind: int)
    requires v.Size() >= 1
    ensures val == MaxOf(v.a[..])
    ensures ind == MaxIndAsWritten(v.a[..], ind0)
  {
    var n := v.Size();
    val := v.a[0];
    ind := ind0;
    for i := 1 to n
      invariant 1 <= i <= n
      invariant val == MaxOf(v.a[..i])
      invariant ind == MaxIndAsWritten(v.a[..i], ind0)
    {
      assert v.a[..i + 1][..i] == v.a[..i];
      if v.a[i] > val {
        val := v.a[i];
        ind := i;
      }
    }
    assert v.a[..n] == v.a[..];
  }

  /** With the first element the largest, the index the caller passed comes back unchanged
      and need not point at the maximum: for `v = [5, 3]` and `ind = 1`, the result is 5 and
      `ind` stays 1, where 3 is stored. */
  lemma MaxIndStale()
    ensures MaxIndAsWritten([5, 3], 1) == 1
    ensures MaxOf([5, 3]) == 5 && [5, 3][1] != MaxOf([5, 3])
  {
    assert FirstMaxIndex([5, 3][..1]) == 0;
  }

  /** max(ind, v) with `ind` set to 0 before the loop: `ind` is always the first position of
      the maximum. */
  method MaxIndCorrected(v: Vector) returns (val: int, ind: nat)
    requires v.Size() >= 1
    ensures ind == FirstMaxIndex(v.a[..])
    ensures ind < v.Size() && v.a[ind] == val == MaxOf(v.a[..])
    ensures forall i :: 0 <= i < ind ==> v.a[i] < val
  {
    var n := v.Size();
    val := v.a[0];
    ind := 0;
    for i := 1 to n
      invariant ind < i
      invariant val == v.a[ind] && ind == FirstMaxIndex(v.a[..i])
    {
      assert v.a[..i + 1][..i] == v.a[..i];
      if v.a[i] > val {
        val := v.a[i];
        ind := i;
      }
    }
    assert v.a[..n] == v.a[..];
  }

  // ---------------------------------------------------------------------------
  // cumsum

  /** The running totals: entry `i` is the total of the first `i + 1` elements. */
  function PrefixSums(s: seq<int>): (p: seq<int>)
    ensures |p| == |s|
  {
    if |s| == 0 then [] else PrefixSums(s[..|s| - 1]) + [Total(s)]
  }

  lemma {:induction false} PrefixSumsAt(s: seq<int>, i: nat)
    requires i < |s|
    ensures PrefixSums(s)[i] == Total(s[..i + 1])
    decreases |s|
  {
    var n := |s| - 1;
    if i < n {
      PrefixSumsAt(s[..n], i);
      assert s[..n][..i + 1] == s[..i + 1];
    } else {
      assert s[..i + 1] == s;
    }
  }

  /** One more element extends the running totals by the last total plus that element. */
  lemma PrefixSumsStep(s: seq<int>, i: nat)
    requires 1 <= i < |s|
    ensures PrefixSums(s[..i + 1]) == PrefixSums(s[..i]) + [PrefixSums(s[..i])[i - 1] + s[i]]
  {
    assert s[..i + 1][..i] == s[..i];
    PrefixSumsAt(s[..i], i - 1);
    assert s[..i][..i] == s[..i];
  }

  /** The first running total is the first element. */
  lemma {:induction false} PrefixSumsFirst(s: seq<int>)
    requires |s| >= 1
    ensures PrefixSums(s[..1]) == [s[0]]
    ensures PrefixSums(s)[0] == s[0]
  {
    PrefixSumsAt(s, 0);
    assert s[..1][..0] == [];
    assert s[..1][..1] == s[..1];
  }

  /** Consecutive running totals differ by the element between them. */
  lemma PrefixSumsDifference(s: seq<int>, i: nat)
    requires 1 <= i < |s|
    ensures PrefixSums(s)[i] - PrefixSums(s)[i - 1] == s[i]
  {
    PrefixSumsAt(s, i);
    PrefixSumsAt(s, i - 1);
    assert s[..i + 1][..i] == s[..i];
  }

  /** Differences of consecutive running totals give the sequence back, and the last running
      total is the total. */
  lemma PrefixSumsInverse(s: seq<int>)
    ensures |s| >= 1 ==> PrefixSums(s)[0] == s[0]
    ensures forall i :: 1 <= i < |s| ==> PrefixSums(s)[i] - PrefixSums(s)[i - 1] == s[i]
    ensures |s| >= 1 ==> PrefixSums(s)[|s| - 1] == Total(s)
  {
    forall i | 1 <= i < |s|
      ensures PrefixSums(s)[i] - PrefixSums(s)[i - 1] == s[i]
    {
      PrefixSumsDifference(s, i);
    }
    if |s| >= 1 {
      PrefixSumsFirst(s);
    }
  }

  /** cumsum(F, f) as written: F(0) = f(0), then the loop stops at N - 2, so F(N - 1) keeps
      whatever the resized buffer held. */
  function CumsumAsWritten(s: seq<int>, last: int): (p: seq<int>)
    requires |s| >= 1
    ensures |p| == |s|
    ensures p[..|s| - 1] == PrefixSums(s)[..|s| - 1]
    ensures |s| >= 2 ==> p[|s| - 1] == last
  {
    if |s| == 1 then PrefixSums(s) else PrefixSums(s)[..|s| - 1] + [last]
  }

  /** The element F(N - 1) is never written: for `f = [1, 1]` and an F that held zeros the
      result is `[1, 0]`, not the running totals `[1, 2]`. */
  lemma CumsumMissesLast()
    ensures CumsumAsWritten([1, 1], 0) == [1, 0]
    ensures PrefixSums([1, 1]) == [1, 2]
  {
    assert [1, 1][..1] == [1];
    assert [1, 1][..1][..0] == [];
  }

  /** cumsum(F, f) as written. `F` may be `f` itself. */
  method Cumsum(F: Vector, f: Vector) returns (ghost last: int)
    requires f.Size() >= 1
    modifies F, F.a
    ensures F.Size() == old(f.Size())
    ensures F.a[..] == CumsumAsWritten(old(f.a[..]), last)
    ensures F.Size() >= 2 && old(F.a.Length) == F.Size() ==> last == old(F.a[F.Size() - 1])
  {
    ghost var src := f.a[..];
    var n := f.Size();
    F.Resize(n);
    last := F.a[n - 1];
    F.a[0] := f.a[0];
    label Started:
    RunningTotals(F.a, f.a, n - 1, src);
    if n >= 2 {
      assert F.a[n - 1] == old@Started(F.a[n - 1]) == last;
    }
    CumsumAssembled(src, F.a[..], last);
  }

  /** What the loop of cumsum leaves, with the last element untouched, is `CumsumAsWritten`. */
  lemma CumsumAssembled(src: seq<int>, out: seq<int>, last: int)
    requires |out| == |src| >= 1 && out[0] == src[0]
    requires |src| >= 2 ==> out[..|src| - 1] == PrefixSums(src[..|src| - 1]) && out[|src| - 1] == last
    ensures out == CumsumAsWritten(src, last)
  {
    var n := |src|;
    PrefixSumsFirst(src);
    if n == 1 {
      assert out == [src[0]];
      assert src[..1] == src;
    } else {
      assert PrefixSums(src) == PrefixSums(src[..n - 1]) + [Total(src)];
      assert out == out[..n - 1] + [last];
    }
  }

  /** cumsum with the loop running to N - 1: every running total is written. */
  method CumsumCorrected(F: Vector, f: Vector)
    requires f.Size() >= 1
    modifies F, F.a
    ensures F.a[..] == PrefixSums(old(f.a[..]))
  {
    ghost var src := f.a[..];
    var n := f.Size();
    F.Resize(n);
    F.a[0] := f.a[0];
    PrefixSumsFirst(src);
    RunningTotals(F.a, f.a, n, src);
    assert src[..n] == src;
    assert F.a[..n] == F.a[..];
  }

  /** The loop of cumsum over the buffers, from 1 while below `hi`: `d` and `s` may be the
      same buffer, since each step reads `s[i]` before it writes `d[i]`. */
  method RunningTotals(d: array<int>, s: array<int>, hi: nat, ghost src: seq<int>)
    requires d.Length == s.Length == |src| >= 1 && hi <= |src|
    requires d[0] == src[0]
    requires forall j :: 1 <= j < |src| ==> s[j] == src[j]
    modifies d
    ensures hi >= 1 ==> d[..hi] == PrefixSums(src[..hi])
    ensures d[0] == src[0]
    ensures forall j :: 1 <= j < d.Length && hi <= j ==> d[j] == old(d[j])
  {
    assert d[..1] == [src[0]];
    PrefixSumsFirst(src);
    var i := 1;
    while i < hi
      invariant 1 <= i <= (if hi == 0 then 1 else hi)
      invariant d[0] == src[0]
      invariant forall j :: i <= j < |src| ==> s[j] == src[j]
      invariant forall j :: i <= j < d.Length ==> d[j] == old(d[j])
      invariant d[..i] == PrefixSums(src[..i])
    {
      PrefixSumsStep(src, i);
      d[i] := d[i - 1] + s[i];
      assert d[..i + 1] == d[..i] + [d[i]];
      i := i + 1;
    }
  }
}
