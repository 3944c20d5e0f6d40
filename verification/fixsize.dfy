/** Fixed-size containers: FixVec<T,N>, a vector of `N` elements held inline, and
    FixCmat<T,Nr,Nc>, a column-major `Nr` by `Nc` matrix over a FixVec of `Nr*Nc` elements.
    The template sizes become constant fields; the inline storage a constant array. A
    subscript out of range is reported (with bounds checking on) as an error outcome. */
module FixSize {

  import opened ScalarArith
  import opened CopyPrimitives

  /** What an access reports: the element, or the out-of-bounds error. */
  datatype Access = Element(value: int) | OutOfBounds

  /** The outcome of a copy construction: FixCmat forbids it outright. */
  datatype Construction = Constructed | CopyForbidden

  /** FixVec<T,N>: `n` elements in `data`, which never changes identity or length. */
  class FixVec {
    const n: nat
    const data: array<int>

    predicate Valid()
    {
      data.Length == n
    }

    /** FixVec(): the elements are left as they are. */
    constructor (n: nat)
      ensures this.n == n && Valid() && fresh(data)
    {
      this.n := n;
      data := new int[n];
    }

    /** FixVec(s): every element is `s`. */
    constructor Filled(n: nat, s: int)
      ensures this.n == n && Valid() && fresh(data)
      ensures forall k :: 0 <= k < n ==> data[k] == s
    {
      this.n := n;
      data := new int[n];
      new;
      Fill(s);
    }

    /** size(): the number of elements held, `N`. */
    function Size(): (r: nat)
      requires Valid()
      ensures r == data.Length
    {
      n
    }

    /** v[i] and v(i) (the latter delegates to the former): element `i`, an error unless `0 <= i < N`. */
    function Get(i: int): (r: Access)
      requires Valid()
      reads data
      ensures r.Element? <==> 0 <= i < data.Length
      ensures r.Element? ==> r.value == data[i]
    {
      if i < 0 || i >= n then OutOfBounds else Element(data[i])
    }

    /** Assignment through v[i]: element `i` becomes `x`; out of bounds nothing is written. */
    method Put(i: int, x: int) returns (r: Access)
      requires Valid()
      modifies data
      ensures r.Element? <==> 0 <= i < data.Length
      ensures r.Element? ==> r.value == x && data[..] == old(data[..])[i := x]
      ensures r.OutOfBounds? ==> data[..] == old(data[..])
    {
      if i < 0 || i >= n {
        return OutOfBounds;
      }
      data[i] := x;
      return Element(x);
    }

    /** end(i): the `i`-th element from the back, an error unless `1 <= i <= N`. */
    function End(i: int): (r: Access)
      requires Valid()
      reads data
      ensures r.Element? <==> 1 <= i <= data.Length
      ensures r.Element? ==> r.value == data[data.Length - i]
    {
      if i <= 0 || i > n then OutOfBounds else Element(data[n - i])
    }

    /** v = s: every element becomes `s`. */
    method Fill(s: int)
      requires Valid()
      modifies data
      ensures forall k :: 0 <= k < data.Length ==> data[k] == s
    {
      VecSet(data, 0, s, n);
    }

    /** v = rhs for a FixVec of the same size `N`: an element-wise copy. Copying a vector onto
        itself leaves it as it is. */
    method Assign(rhs: FixVec)
      requires Valid() && rhs.Valid() && rhs.n == n
      modifies data
      ensures data[..] == old(rhs.data[..])
    {
      if rhs.data != data {
        VecCpy(data, 0, rhs.data, 0, n);
        assert data[..] == rhs.data[..];
      }
    }
  }

  /** `end(i)` is subscript `N - i`, in and out of range alike; `end(1)` is the last element. */
  lemma EndIsGetFromBack(v: FixVec, i: int)
    requires v.Valid()
    ensures v.End(i) == v.Get(v.n - i)
    ensures v.n > 0 ==> v.End(1) == Element(v.data[v.n - 1])
  {
  }

  /** Writing element `i` and reading it back gives what was written; other subscripts read as before. */
  lemma PutThenGet(v: FixVec, before: seq<int>, i: int, x: int, k: int)
    requires v.Valid() && |before| == v.n && 0 <= i < v.n && v.data[..] == before[i := x]
    ensures v.Get(i) == Element(x)
    ensures k != i && 0 <= k < v.n ==> v.Get(k) == Element(before[k])
  {
    assert v.data[i] == v.data[..][i];
    if k != i && 0 <= k < v.n {
      assert v.data[k] == v.data[..][k];
    }
  }

  /** v == v1 between FixVecs: the sizes and the elements agree. */
  function EqualFixVec(v: FixVec, v1: FixVec): (r: bool)
    requires v.Valid() && v1.Valid()
    reads v.data, v1.data
    ensures r <==> v.data[..] == v1.data[..]
  {
    v.n == v1.n && forall k :: 0 <= k < v.n ==> v.data[k] == v1.data[k]
  }

  /** v == s: every element equals the scalar. */
  function EqualFixVecScalar(v: FixVec, s: int): (r: bool)
    requires v.Valid()
    reads v.data
    ensures r <==> v.data[..] == seq(v.n, _ => s)
  {
    forall k :: 0 <= k < v.n ==> v.data[k] == s
  }

  /** After `v = s`, `v == s` holds, and after `v = rhs`, `v == rhs`. */
  lemma AssignmentsEstablishEquality(v: FixVec, v1: FixVec, s: int)
    requires v.Valid() && v1.Valid() && v1.n == v.n
    ensures (forall k :: 0 <= k < v.n ==> v.data[k] == s) <==> EqualFixVecScalar(v, s)
    ensures v.data[..] == v1.data[..] ==> EqualFixVec(v, v1)
  {
  }

  /** FixCmat<T,Nr,Nc>: element `(i, j)` is `data[i + Nr*j]`. */
  class FixCmat {
    const nr: nat
    const nc: nat
    const data: array<int>

    predicate Valid()
    {
      data.Length == nr * nc
    }

    constructor (nr: nat, nc: nat)
      ensures this.nr == nr && this.nc == nc && Valid() && fresh(data)
    {
      this.nr, this.nc := nr, nc;
      data := new int[nr * nc];
    }

    /** FixCmat(s): every element is `s`. */
    constructor Filled(nr: nat, nc: nat, s: int)
      ensures this.nr == nr && this.nc == nc && Valid() && fresh(data)
      ensures forall k :: 0 <= k < nr * nc ==> data[k] == s
    {
      this.nr, this.nc := nr, nc;
      data := new int[nr * nc];
      new;
      Fill(s);
    }

    /** nrows(): the row count, which together with ncols() accounts for every element. */
    function Nrows(): (r: nat)
      requires Valid()
      ensures r * nc == data.Length
    {
      nr
    }

    /** ncols(): the column count. */
    function Ncols(): (r: nat)
      requires Valid()
      ensures nr * r == data.Length
    {
      nc
    }

    /** a(i, j): an error unless `0 <= i < Nr` and `0 <= j < Nc`; otherwise element `(i, j)`
        of the column-major storage. */
    function Get(i: int, j: int): (r: Access)
      requires Valid()
      reads data
      ensures r.Element? <==> 0 <= i < nr && 0 <= j < nc
      ensures r.Element? ==> 0 <= CSub2Ind(nr, i, j) < data.Length && r.value == data[CSub2Ind(nr, i, j)]
    {
      if i < 0 || i >= nr || j < 0 || j >= nc then OutOfBounds
      else
        CSub2IndBijective(nr, nc, i, j);
        Element(data[i + nr * j])
    }

    /** Assignment through a(i, j); out of bounds nothing is written. */
    method Put(i: int, j: int, x: int) returns (r: Access)
      requires Valid()
      modifies data
      ensures r.Element? <==> 0 <= i < nr && 0 <= j < nc
      ensures r.Element? ==>
        0 <= CSub2Ind(nr, i, j) < data.Length && data[..] == old(data[..])[CSub2Ind(nr, i, j) := x]
      ensures r.OutOfBounds? ==> data[..] == old(data[..])
    {
      if i < 0 || i >= nr || j < 0 || j >= nc {
        return OutOfBounds;
      }
      CSub2IndBijective(nr, nc, i, j);
      data[i + nr * j] := x;
      return Element(x);
    }

    /** a = s: every element becomes `s`. */
    method Fill(s: int)
      requires Valid()
      modifies data
      ensures forall k :: 0 <= k < data.Length ==> data[k] == s
    {
      VecSet(data, 0, s, nr * nc);
    }

    /** a = rhs: an element-wise copy from any FixCmat with as many elements; the shape of
        `a` stays its own. */
    method Assign(rhs: FixCmat)
      requires Valid() && rhs.Valid() && rhs.nr * rhs.nc == nr * nc
      modifies data
      ensures data[..] == old(rhs.data[..])
    {
      if rhs.data != data {
        VecCpy(data, 0, rhs.data, 0, nr * nc);
        assert data[..] == rhs.data[..];
      }
    }
  }

  /** The copy constructor FixCmat(const FixCmat&) raises an error whatever its argument;
      copies go through `=`. */
  function CopyConstruct(rhs: FixCmat): (r: Construction)
    ensures r != Constructed
  {
    CopyForbidden
  }

  /** `(i, j) -> i + Nr*j` reaches every slot of the storage: slot `k` is element
      `(k % Nr, k / Nr)`. */
  lemma {:induction false} FixCmatEverySlotReached(a: FixCmat, k: int)
    requires a.Valid() && 0 <= k < a.data.Length
    ensures a.nr > 0 && a.Get(k % a.nr, k / a.nr) == Element(a.data[k])
  {
    CSub2IndOnto(a.nr, a.nc, k);
  }

  /** Distinct in-range subscripts name distinct slots. */
  lemma {:induction false} FixCmatSubscriptsDistinct(a: FixCmat, i: int, j: int, i2: int, j2: int)
    requires a.Valid() && 0 <= i < a.nr && 0 <= j < a.nc && 0 <= i2 < a.nr && 0 <= j2 < a.nc
    requires (i, j) != (i2, j2)
    ensures CSub2Ind(a.nr, i, j) != CSub2Ind(a.nr, i2, j2)
  {
    CSub2IndBijective(a.nr, a.nc, i, j);
    CSub2IndBijective(a.nr, a.nc, i2, j2);
  }

  /** Comparing the storage slot by slot is comparing every subscript `(i, j)`. */
  lemma {:induction false} SlotsAgreeIffSubscriptsAgree(a: FixCmat, a1: FixCmat)
    requires a.Valid() && a1.Valid() && a.nr == a1.nr && a.nc == a1.nc
    ensures (forall k :: 0 <= k < a.nr * a.nc ==> a.data[k] == a1.data[k]) <==>
      (forall i, j :: 0 <= i < a.nr && 0 <= j < a.nc ==> a.Get(i, j) == a1.Get(i, j))
  {
    if forall i, j :: 0 <= i < a.nr && 0 <= j < a.nc ==> a.Get(i, j) == a1.Get(i, j) {
      forall k | 0 <= k < a.nr * a.nc
        ensures a.data[k] == a1.data[k]
      {
        FixCmatEverySlotReached(a, k);
        FixCmatEverySlotReached(a1, k);
      }
    }
  }

  /** Every slot holds `s` exactly when every subscript `(i, j)` reads `s`. */
  lemma {:induction false} SlotsFilledIffSubscriptsFilled(a: FixCmat, s: int)
    requires a.Valid()
    ensures (forall k :: 0 <= k < a.nr * a.nc ==> a.data[k] == s) <==>
      (forall i, j :: 0 <= i < a.nr && 0 <= j < a.nc ==> a.Get(i, j) == Element(s))
  {
    if forall i, j :: 0 <= i < a.nr && 0 <= j < a.nc ==> a.Get(i, j) == Element(s) {
      forall k | 0 <= k < a.nr * a.nc
        ensures a.data[k] == s
      {
        FixCmatEverySlotReached(a, k);
      }
    }
  }

  /** a == a1 between FixCmats of the same shape: the elements agree. */
  function EqualFixCmat(a: FixCmat, a1: FixCmat): (r: bool)
    requires a.Valid() && a1.Valid() && a.nr == a1.nr && a.nc == a1.nc
    reads a.data, a1.data
    ensures r <==> forall i, j :: 0 <= i < a.nr && 0 <= j < a.nc ==> a.Get(i, j) == a1.Get(i, j)
  {
    SlotsAgreeIffSubscriptsAgree(a, a1);
    forall k :: 0 <= k < a.nr * a.nc ==> a.data[k] == a1.data[k]
  }

  /** a == s: every element equals the scalar. */
  function EqualFixCmatScalar(a: FixCmat, s: int): (r: bool)
    requires a.Valid()
    reads a.data
    ensures r <==> forall i, j :: 0 <= i < a.nr && 0 <= j < a.nc ==> a.Get(i, j) == Element(s)
  {
    SlotsFilledIffSubscriptsFilled(a, s);
    forall k :: 0 <= k < a.nr * a.nc ==> a.data[k] == s
  }
}
