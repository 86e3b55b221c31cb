/** The BASIC array: up to four dimensions with any lower bounds, stored row by row in one vector. */
module BasicArray {
  import opened Text

  /** One dimension: bounds and extent; an extent of 0 means that the dimension is not there. */
  datatype Dim = Dim(lo: int, hi: int, d: int)

  const ABSENT: Dim := Dim(0, 0, 0)

  /** Bounds may be given in either order. */
  function Span(l: int, h: int): Dim {
    if h < l then Dim(h, l, l - h + 1) else Dim(l, h, h - l + 1)
  }

  predicate Present(x: Dim) {
    x.d == x.hi - x.lo + 1 && x.d > 0
  }

  // ---- Row-major positions, for any number of dimensions -----------------------------------------

  /** The coordinates lie within the bounds. */
  predicate InBox(dims: seq<Dim>, at: seq<int>) {
    |at| == |dims| && forall i | 0 <= i < |dims| :: dims[i].lo <= at[i] <= dims[i].hi
  }

  function Volume(dims: seq<Dim>): int {
    if dims == [] then 1 else Volume(dims[..|dims| - 1]) * dims[|dims| - 1].d
  }

  /** Position of a cell when the last coordinate varies fastest. */
  function RowMajor(dims: seq<Dim>, at: seq<int>): int
    requires |at| == |dims|
  {
    if dims == [] then 0
    else
      var n := |dims| - 1;
      RowMajor(dims[..n], at[..n]) * dims[n].d + (at[n] - dims[n].lo)
  }

  /** The cell at a position. */
  function CellAt(dims: seq<Dim>, k: int): (at: seq<int>)
    requires forall i | 0 <= i < |dims| :: dims[i].d > 0
    ensures |at| == |dims|
  {
    if dims == [] then []
    else
      var last := dims[|dims| - 1];
      CellAt(dims[..|dims| - 1], k / last.d) + [k % last.d + last.lo]
  }

  predicate AllPresent(dims: seq<Dim>) {
    forall i | 0 <= i < |dims| :: Present(dims[i])
  }

  lemma {:induction false} MulMono(a: int, b: int, d: int)
    requires d >= 0
    ensures a < b ==> a * d + d <= b * d
    decreases b - a
  {
    if a < b {
      MulMono(a, b - 1, d);
      assert b * d == (b - 1) * d + d;
    }
  }

  lemma {:induction false} RowInRange(p: int, v: int, d: int, r: int)
    requires 0 <= p < v && 0 <= r < d
    ensures 0 <= p * d + r < v * d
    ensures (p * d + r) / d == p && (p * d + r) % d == r
  {
    MulMono(p, v, d);
    assert p * d >= 0;
    DivMod(p, d, r);
  }

  lemma {:induction false} DivMod(p: int, d: int, r: int)
    requires 0 <= p && 0 <= r < d
    ensures (p * d + r) / d == p && (p * d + r) % d == r
  {
    var k := p * d + r;
    assert k == (k / d) * d + k % d;
    MulMono(k / d, p, d);
    MulMono(p, k / d, d);
  }

  /** Inside the box, positions run from 0 to the volume, and the cell can be read off the position. */
  lemma {:induction false} BoxToRange(dims: seq<Dim>, at: seq<int>)
    requires AllPresent(dims) && InBox(dims, at)
    ensures 0 <= RowMajor(dims, at) < Volume(dims)
    ensures CellAt(dims, RowMajor(dims, at)) == at
  {
    if dims != [] {
      var n := |dims| - 1;
      BoxToRange(dims[..n], at[..n]);
      RowInRange(RowMajor(dims[..n], at[..n]), Volume(dims[..n]), dims[n].d, at[n] - dims[n].lo);
      assert at == at[..n] + [at[n]];
    }
  }

  lemma {:induction false} CellAppend(dims: seq<Dim>, at: seq<int>, c: int)
    requires |dims| == |at| + 1 && InBox(dims[..|at|], at) && dims[|at|].lo <= c <= dims[|at|].hi
    ensures InBox(dims, at + [c])
    ensures RowMajor(dims, at + [c]) == RowMajor(dims[..|at|], at) * dims[|at|].d + (c - dims[|at|].lo)
  {
    assert (at + [c])[..|at|] == at;
  }

  /** Every position below the volume belongs to a cell of the box. */
  lemma {:induction false} RangeToBox(dims: seq<Dim>, k: int)
    requires AllPresent(dims) && 0 <= k < Volume(dims)
    ensures InBox(dims, CellAt(dims, k)) && RowMajor(dims, CellAt(dims, k)) == k
  {
    hide RowMajor;
    if dims == [] {
      RowMajorNone(dims, []);
    } else {
      var n := |dims| - 1;
      var d := dims[n].d;
      QuotientInRange(k, Volume(dims[..n]), d);
      RangeToBox(dims[..n], k / d);
      CellAppend(dims, CellAt(dims[..n], k / d), k % d + dims[n].lo);
      assert k == (k / d) * d + k % d;
    }
  }

  lemma {:induction false} QuotientInRange(k: int, v: int, d: int)
    requires d > 0 && 0 <= k < v * d
    ensures 0 <= k / d < v
  {
    assert k == (k / d) * d + k % d;
    MulMono(v - 1, k / d, d);
  }

  /** The index formula is a bijection from the box onto 0..Volume-1. */
  lemma {:induction false} Bijection(dims: seq<Dim>)
    requires AllPresent(dims)
    ensures forall at | InBox(dims, at) :: 0 <= RowMajor(dims, at) < Volume(dims)
    ensures forall a, b | InBox(dims, a) && InBox(dims, b) && RowMajor(dims, a) == RowMajor(dims, b) :: a == b
    ensures forall k | 0 <= k < Volume(dims) :: InBox(dims, CellAt(dims, k)) && RowMajor(dims, CellAt(dims, k)) == k
  {
    forall at | InBox(dims, at)
      ensures 0 <= RowMajor(dims, at) < Volume(dims) && CellAt(dims, RowMajor(dims, at)) == at
    {
      BoxToRange(dims, at);
    }
    forall k | 0 <= k < Volume(dims)
      ensures InBox(dims, CellAt(dims, k)) && RowMajor(dims, CellAt(dims, k)) == k
    {
      RangeToBox(dims, k);
    }
  }

  // ---- The array object --------------------------------------------------------------------------

  /** The dimensions in use; the source numbers them from 1. */
  function Used(dim: seq<Dim>, rank: nat): seq<Dim>
    requires |dim| == 5 && rank <= 4
  {
    dim[1..rank + 1]
  }

  /** An array of `rank` dimensions. A one-dimensional one may be empty. */
  predicate HasRank(dim: seq<Dim>, rank: nat) {
    |dim| == 5 && 1 <= rank <= 4
    && (forall j | 1 <= j <= rank :: dim[j].d == dim[j].hi - dim[j].lo + 1 && dim[j].d >= 0)
    && (rank > 1 ==> forall j | 1 <= j <= rank :: dim[j].d > 0)
    && (forall j | rank < j <= 4 :: dim[j].d == 0)
  }

  /** `Size()`. */
  function Size(dim: seq<Dim>): int
    requires |dim| == 5
  {
    var r1 := dim[1].d;
    var r2 := if dim[2].d != 0 then r1 * dim[2].d else r1;
    var r3 := if dim[3].d != 0 then r2 * dim[3].d else r2;
    if dim[4].d != 0 then r3 * dim[4].d else r3
  }

  /** The position that `operator()` computes from one to four indices. */
  function Index(dim: seq<Dim>, at: seq<int>): int
    requires |dim| == 5 && 1 <= |at| <= 4
  {
    if |at| == 1 then at[0] - dim[1].lo
    else if |at| == 2 then (at[0] - dim[1].lo) * dim[2].d + (at[1] - dim[2].lo)
    else if |at| == 3 then
      (at[0] - dim[1].lo) * dim[2].d * dim[3].d + (at[1] - dim[2].lo) * dim[3].d + (at[2] - dim[3].lo)
    else
      (at[0] - dim[1].lo) * dim[2].d * dim[3].d * dim[4].d + (at[1] - dim[2].lo) * dim[3].d * dim[4].d
      + (at[2] - dim[3].lo) * dim[4].d + (at[3] - dim[4].lo)
  }

  lemma {:induction false} Distribute(a: int, b: int, d: int)
    ensures (a + b) * d == a * d + b * d
  {
  }

  lemma {:induction false} Horner3(a: int, b: int, c: int, d2: int, d3: int)
    ensures (a * d2 + b) * d3 + c == a * d2 * d3 + b * d3 + c
  {
    Distribute(a * d2, b, d3);
  }

  lemma {:induction false} Horner4(a: int, b: int, c: int, e: int, d2: int, d3: int, d4: int)
    ensures ((a * d2 + b) * d3 + c) * d4 + e == a * d2 * d3 * d4 + b * d3 * d4 + c * d4 + e
  {
    Horner3(a, b, c, d2, d3);
    Distribute(a * d2 * d3 + b * d3, c, d4);
    Distribute(a * d2 * d3, b * d3, d4);
  }

  lemma {:induction false} RowMajorStep(dims: seq<Dim>, at: seq<int>, k: nat)
    requires |dims| == |at| && k < |dims|
    ensures RowMajor(dims[..k + 1], at[..k + 1]) == RowMajor(dims[..k], at[..k]) * dims[k].d + (at[k] - dims[k].lo)
  {
    assert dims[..k + 1][..k] == dims[..k] && at[..k + 1][..k] == at[..k];
  }

  /** The position, one dimension after the other. */
  lemma {:induction false} RowMajorIs(u: seq<Dim>, at: seq<int>)
    requires 1 <= |u| == |at| <= 4
    ensures var p1 := at[0] - u[0].lo;
            && (|u| == 1 ==> RowMajor(u, at) == p1)
            && (|u| > 1 ==>
                  var p2 := p1 * u[1].d + (at[1] - u[1].lo);
                  && (|u| == 2 ==> RowMajor(u, at) == p2)
                  && (|u| > 2 ==>
                        var p3 := p2 * u[2].d + (at[2] - u[2].lo);
                        && (|u| == 3 ==> RowMajor(u, at) == p3)
                        && (|u| > 3 ==> RowMajor(u, at) == p3 * u[3].d + (at[3] - u[3].lo))))
  {
    hide RowMajor;
    var n := |at|;
    assert u[..n] == u && at[..n] == at;
    RowMajorNone(u[..0], at[..0]);
    RowMajorStep(u, at, 0);
    assert RowMajor(u[..1], at[..1]) == at[0] - u[0].lo;
    if n > 1 { RowMajorStep(u, at, 1); }
    if n > 2 { RowMajorStep(u, at, 2); }
    if n > 3 { RowMajorStep(u, at, 3); }
  }

  /** The formulas of the source are the row-major position. */
  lemma {:induction false} IndexIsRowMajor(dim: seq<Dim>, at: seq<int>)
    requires |dim| == 5 && 1 <= |at| <= 4
    ensures Index(dim, at) == RowMajor(Used(dim, |at|), at)
  {
    hide RowMajor;
    RowMajorIs(Used(dim, |at|), at);
    if |at| >= 3 {
      var a, b, c := at[0] - dim[1].lo, at[1] - dim[2].lo, at[2] - dim[3].lo;
      if |at| == 3 {
        Horner3(a, b, c, dim[2].d, dim[3].d);
      } else {
        Horner4(a, b, c, at[3] - dim[4].lo, dim[2].d, dim[3].d, dim[4].d);
      }
    }
  }

  lemma {:induction false} RowMajorNone(dims: seq<Dim>, at: seq<int>)
    requires |dims| == |at| == 0
    ensures RowMajor(dims, at) == 0
  {
  }

  lemma {:induction false} SizeIsVolume(dim: seq<Dim>, rank: nat)
    requires HasRank(dim, rank)
    ensures Size(dim) == Volume(Used(dim, rank)) && Size(dim) >= 0
  {
    var u := Used(dim, rank);
    VolumeFirst(u[..1]);
    assert u[..rank] == u;
    if rank > 1 {
      VolumeMore(u[..2]);
      if rank > 2 {
        VolumeMore(u[..3]);
        if rank > 3 { VolumeMore(u[..4]); }
      }
    }
  }

  lemma {:induction false} VolumeFirst(dims: seq<Dim>)
    requires |dims| == 1
    ensures Volume(dims) == dims[0].d
  {
    assert dims[..0] == [];
  }

  lemma {:induction false} VolumeMore(dims: seq<Dim>)
    requires |dims| > 1
    ensures dims[..|dims| - 1] == dims[..|dims| - 1][..|dims| - 1]
    ensures Volume(dims) == Volume(dims[..|dims| - 1]) * dims[|dims| - 1].d
    ensures Volume(dims[..|dims| - 1]) >= 0 && dims[|dims| - 1].d >= 0 ==> Volume(dims) >= 0
  {
  }

  // ---- Redim -------------------------------------------------------------------------------------

  /** The dimensions after `redim` with one to four pairs of bounds: with Preserve only the first is new. */
  function NewDims(dim: seq<Dim>, preserve: bool, bounds: seq<(int, int)>): seq<Dim>
    requires |dim| == 5 && 1 <= |bounds| <= 4
  {
    [dim[0], Span(bounds[0].0, bounds[0].1),
     NewDim(dim, preserve, bounds, 2), NewDim(dim, preserve, bounds, 3), NewDim(dim, preserve, bounds, 4)]
  }

  function NewDim(dim: seq<Dim>, preserve: bool, bounds: seq<(int, int)>, j: nat): Dim
    requires |dim| == 5 && 1 <= |bounds| <= 4 && 2 <= j <= 4
  {
    if j <= |bounds| then (if preserve then dim[j] else Span(bounds[j - 1].0, bounds[j - 1].1))
    else if |bounds| == 1 && preserve then dim[j]
    else ABSENT
  }

  function Copies<T>(n: nat, x: T): seq<T> {
    seq(n, _ => x)
  }

  /** `vector::resize`. */
  function Resized<T>(v: seq<T>, n: nat, zero: T): (r: seq<T>)
    ensures |r| == n
  {
    if n <= |v| then v[..n] else v + Copies(n - |v|, zero)
  }

  /** The bounds of a dimension, in order, and how many indices there are from one to the other. */
  predicate Spans(x: Dim, l: int, h: int) {
    && (x.lo == l || x.lo == h) && (x.hi == l || x.hi == h) && x.lo <= l <= x.hi && x.lo <= h <= x.hi
    && x.d == x.hi - x.lo + 1
  }

  lemma {:induction false} ResizedIs<T>(v: seq<T>, n: nat, zero: T, k: nat)
    requires k < n
    ensures Resized(v, n, zero)[k] == if k < |v| then v[k] else zero
  {
  }

  /** Whatever the array was, a redim without Preserve makes it a full box of the given rank and bounds. */
  lemma {:induction false} FreshRank(dim: seq<Dim>, bounds: seq<(int, int)>)
    requires |dim| == 5 && 1 <= |bounds| <= 4
    ensures var dim' := NewDims(dim, false, bounds);
            HasRank(dim', |bounds|) && AllPresent(Used(dim', |bounds|)) && Size(dim') > 0
    ensures forall j | 1 <= j <= |bounds| :: Spans(NewDims(dim, false, bounds)[j], bounds[j - 1].0, bounds[j - 1].1)
  {
    var dim' := NewDims(dim, false, bounds);
    assert AllPresent(Used(dim', |bounds|));
    SizeIsVolume(dim', |bounds|);
    VolumePositive(Used(dim', |bounds|));
  }

  lemma {:induction false} VolumePositive(dims: seq<Dim>)
    requires AllPresent(dims)
    ensures Volume(dims) > 0
  {
    if dims != [] { VolumePositive(dims[..|dims| - 1]); }
  }

  /** With fewer pairs of bounds than dimensions, but more than one, the other dimensions are lost. */
  function NewRank(rank: nat, bounds: nat): nat {
    if bounds == 1 || rank <= bounds then rank else bounds
  }

  /** Redim Preserve replaces the first dimension and never adds one. */
  lemma {:induction false} PreserveRank(dim: seq<Dim>, rank: nat, bounds: seq<(int, int)>)
    requires HasRank(dim, rank) && 1 <= |bounds| <= 4
    ensures HasRank(NewDims(dim, true, bounds), NewRank(rank, |bounds|))
    ensures Spans(NewDims(dim, true, bounds)[1], bounds[0].0, bounds[0].1)
    ensures forall j | 2 <= j <= NewRank(rank, |bounds|) :: NewDims(dim, true, bounds)[j] == dim[j]
    ensures NewRank(rank, |bounds|) == if |bounds| == 1 || rank < |bounds| then rank else |bounds|
  {
  }

  /** The cell of the old box that comes to be the cell `at` of the new one: as many rows further as the lower
      bound has moved. */
  function Origin(dim: seq<Dim>, dim': seq<Dim>, at: seq<int>): (was: seq<int>)
    requires |dim| == |dim'| == 5 && |at| > 0
    ensures |was| == |at|
  {
    at[0 := at[0] - (dim'[1].lo - dim[1].lo)]
  }

  /** A row behind the last one is behind the whole box. */
  lemma {:induction false} RowBeyond(dims: seq<Dim>, at: seq<int>)
    requires |at| == |dims| > 0 && at[0] - dims[0].lo >= dims[0].d
    requires forall i | 0 < i < |dims| :: Present(dims[i]) && dims[i].lo <= at[i] <= dims[i].hi
    ensures RowMajor(dims, at) >= Volume(dims)
  {
    var n := |dims| - 1;
    if n == 0 {
      VolumeFirst(dims);
      RowMajorNone(dims[..0], at[..0]);
    } else {
      RowBeyond(dims[..n], at[..n]);
      MulMono(Volume(dims[..n]), RowMajor(dims[..n], at[..n]), dims[n].d);
    }
  }

  /** An array with a cell is not empty. */
  lemma {:induction false} BoxPresent(dim: seq<Dim>, rank: nat, at: seq<int>)
    requires HasRank(dim, rank) && InBox(Used(dim, rank), at)
    ensures AllPresent(Used(dim, rank))
  {
    forall i | 0 <= i < rank ensures Present(Used(dim, rank)[i]) {
      assert Used(dim, rank)[i] == dim[i + 1] && Used(dim, rank)[i].lo <= at[i] <= Used(dim, rank)[i].hi;
    }
  }

  /** A cell and its origin have the same position. */
  lemma {:induction false} OriginPosition(dim: seq<Dim>, rank: nat, bounds: seq<(int, int)>, at: seq<int>)
    requires HasRank(dim, rank)
    requires (rank <= |bounds| <= 4 || |bounds| == 1) && |at| == rank
    requires InBox(Used(NewDims(dim, true, bounds), rank), at)
    ensures var dim' := NewDims(dim, true, bounds);
            HasRank(dim', rank) && 0 <= Index(dim', at) < Size(dim')
            && Index(dim, Origin(dim, dim', at)) == Index(dim', at)
  {
    hide RowMajor, Volume, Size;
    var dim' := NewDims(dim, true, bounds);
    PreserveRank(dim, rank, bounds);
    BoxPresent(dim', rank, at);
    SizeIsVolume(dim', rank);
    IndexIsRowMajor(dim', at);
    BoxToRange(Used(dim', rank), at);
  }

  lemma {:induction false} OriginOutside(dim: seq<Dim>, rank: nat, bounds: seq<(int, int)>, at: seq<int>)
    requires HasRank(dim, rank)
    requires (rank <= |bounds| <= 4 || |bounds| == 1) && |at| == rank
    requires InBox(Used(NewDims(dim, true, bounds), rank), at)
    requires !InBox(Used(dim, rank), Origin(dim, NewDims(dim, true, bounds), at))
    ensures Index(dim, Origin(dim, NewDims(dim, true, bounds), at)) >= Size(dim)
  {
    hide RowMajor, Volume, Size, Index;
    var dim' := NewDims(dim, true, bounds);
    var was := Origin(dim, dim', at);
    PreserveRank(dim, rank, bounds);
    forall i | 0 < i < rank ensures Used(dim, rank)[i] == Used(dim', rank)[i] && was[i] == at[i] {}
    RowBeyond(Used(dim, rank), was);
    IndexIsRowMajor(dim, was);
    SizeIsVolume(dim, rank);
  }

  /** Redim Preserve, cell by cell: a cell of the new box holds what its origin held if that was in the old
      box, and the default value otherwise. */
  lemma {:induction false} PreserveKeeps<T>(dim: seq<Dim>, rank: nat, bounds: seq<(int, int)>, v: seq<T>, zero: T,
                                            at: seq<int>)
    requires HasRank(dim, rank) && |v| == Size(dim)
    requires (rank <= |bounds| <= 4 || |bounds| == 1) && |at| == rank
    requires InBox(Used(NewDims(dim, true, bounds), rank), at)
    ensures var dim' := NewDims(dim, true, bounds);
            var was := Origin(dim, dim', at);
            && Size(dim') > 0
            && 0 <= Index(dim', at) < Size(dim')
            && (InBox(Used(dim, rank), was) ==> 0 <= Index(dim, was) < |v|)
            && Resized(v, Size(dim'), zero)[Index(dim', at)]
               == if InBox(Used(dim, rank), was) then v[Index(dim, was)] else zero
  {
    hide RowMajor, Volume, Size, Index, Origin, NewDims;
    var dim' := NewDims(dim, true, bounds);
    OriginPosition(dim, rank, bounds, at);
    var was := Origin(dim, dim', at);
    if InBox(Used(dim, rank), was) {
      SizeIsVolume(dim, rank);
      IndexIsRowMajor(dim, was);
      BoxPresent(dim, rank, was);
      BoxToRange(Used(dim, rank), was);
    } else {
      OriginOutside(dim, rank, bounds, at);
    }
  }

  /** With fewer pairs of bounds than dimensions the rest of the dimensions is lost, and a cell of the new box
      holds what the old box held at the same position. */
  lemma {:induction false} PreserveFewer<T>(dim: seq<Dim>, rank: nat, bounds: seq<(int, int)>, v: seq<T>, zero: T,
                                            at: seq<int>)
    requires HasRank(dim, rank) && |v| == Size(dim)
    requires 1 < |bounds| < rank && |at| == |bounds| && InBox(Used(NewDims(dim, true, bounds), |bounds|), at)
    ensures var dim' := NewDims(dim, true, bounds);
            var k := Index(dim', at);
            0 <= k < Size(dim')
            && (k < |v| ==> var was := CellAt(Used(dim, rank), k);
                            InBox(Used(dim, rank), was) && Index(dim, was) == k
                            && Resized(v, Size(dim'), zero)[k] == v[Index(dim, was)])
            && (k >= |v| ==> Resized(v, Size(dim'), zero)[k] == zero)
  {
    hide RowMajor, Volume, Size, Index, NewDims, CellAt;
    var dim', n := NewDims(dim, true, bounds), |bounds|;
    PreserveRank(dim, rank, bounds);
    forall i | 0 <= i < n ensures Present(Used(dim', n)[i]) {
      if i > 0 { assert dim'[i + 1] == dim[i + 1] == Used(dim, rank)[i]; } else { SpanPresent(dim, bounds); }
    }
    SizeIsVolume(dim, rank);
    SizeIsVolume(dim', n);
    IndexIsRowMajor(dim', at);
    BoxToRange(Used(dim', n), at);
    if Index(dim', at) < |v| {
      RangeToBox(Used(dim, rank), Index(dim', at));
      IndexIsRowMajor(dim, CellAt(Used(dim, rank), Index(dim', at)));
    }
  }

  lemma {:induction false} SpanPresent(dim: seq<Dim>, bounds: seq<(int, int)>)
    requires |dim| == 5 && 1 <= |bounds| <= 4
    ensures Present(NewDims(dim, true, bounds)[1])
  {
  }

  /** Every cell that lies in both boxes has the value it had. */
  ghost predicate KeepsCommon<T>(dim: seq<Dim>, dim': seq<Dim>, rank: nat, v: seq<T>, zero: T)
    requires |dim| == |dim'| == 5 && 1 <= rank <= 4 && Size(dim') >= 0
  {
    forall at | InBox(Used(dim, rank), at) && InBox(Used(dim', rank), at) :: SameValue(dim, dim', v, zero, at)
  }

  predicate SameValue<T(==)>(dim: seq<Dim>, dim': seq<Dim>, v: seq<T>, zero: T, at: seq<int>)
    requires |dim| == |dim'| == 5 && 1 <= |at| <= 4 && Size(dim') >= 0
  {
    0 <= Index(dim, at) < |v| && 0 <= Index(dim', at) < Size(dim')
    && Resized(v, Size(dim'), zero)[Index(dim', at)] == v[Index(dim, at)]
  }

  /** The bounds of the first dimension have an index in common. */
  predicate Overlap(a: Dim, b: Dim) {
    a.lo <= a.hi && b.lo <= b.hi && a.lo <= b.hi && b.lo <= a.hi
  }

  /** Redim Preserve keeps all common cells, whatever the array holds, exactly if the lower bound stays the
      same or the old and the new bounds have no index in common. `x` and `y` are any two values. */
  lemma {:induction false} PreserveCommonIff<T>(dim: seq<Dim>, rank: nat, bounds: seq<(int, int)>, zero: T, x: T, y: T)
    requires HasRank(dim, rank) && x != y
    requires rank <= |bounds| <= 4 || |bounds| == 1
    ensures var dim' := NewDims(dim, true, bounds);
            Size(dim') > 0
            && ((forall v: seq<T> | |v| == Size(dim) :: KeepsCommon(dim, dim', rank, v, zero))
                <==> dim'[1].lo == dim[1].lo || !Overlap(dim[1], dim'[1]))
  {
    hide Size, Index, KeepsCommon;
    var dim' := NewDims(dim, true, bounds);
    PreserveRank(dim, rank, bounds);
    assert AllPresent(Used(dim', rank));
    SizeIsVolume(dim', rank);
    VolumePositive(Used(dim', rank));
    if dim'[1].lo == dim[1].lo || !Overlap(dim[1], dim'[1]) {
      forall v: seq<T> | |v| == Size(dim) ensures KeepsCommon(dim, dim', rank, v, zero) {
        CommonKept(dim, rank, bounds, v, zero);
      }
    } else {
      var v := CommonLost(dim, rank, bounds, zero, x, y);
    }
  }

  lemma {:induction false} CommonKept<T>(dim: seq<Dim>, rank: nat, bounds: seq<(int, int)>, v: seq<T>, zero: T)
    requires HasRank(dim, rank) && |v| == Size(dim)
    requires rank <= |bounds| <= 4 || |bounds| == 1
    requires var dim' := NewDims(dim, true, bounds); dim'[1].lo == dim[1].lo || !Overlap(dim[1], dim'[1])
    requires Size(NewDims(dim, true, bounds)) > 0
    ensures KeepsCommon(dim, NewDims(dim, true, bounds), rank, v, zero)
  {
    hide Size, Index, Resized;
    var dim' := NewDims(dim, true, bounds);
    forall at | InBox(Used(dim, rank), at) && InBox(Used(dim', rank), at) ensures SameValue(dim, dim', v, zero, at) {
      assert Used(dim, rank)[0] == dim[1] && Used(dim', rank)[0] == dim'[1];
      assert Origin(dim, dim', at) == at;
      PreserveKeeps(dim, rank, bounds, v, zero, at);
    }
  }

  /** A cell that both boxes have, in the first of the rows they share. */
  function CommonCell(dim: seq<Dim>, dim': seq<Dim>, rank: nat): seq<int>
    requires |dim| == |dim'| == 5 && rank <= 4
  {
    seq(rank, i requires 0 <= i < rank =>
      if i > 0 then dim[i + 1].lo else if dim[1].lo < dim'[1].lo then dim'[1].lo else dim[1].lo)
  }

  lemma {:induction false} CommonCellInBoth(dim: seq<Dim>, rank: nat, bounds: seq<(int, int)>)
    requires HasRank(dim, rank) && (rank <= |bounds| <= 4 || |bounds| == 1)
    requires Overlap(dim[1], NewDims(dim, true, bounds)[1])
    ensures var dim' := NewDims(dim, true, bounds);
            InBox(Used(dim, rank), CommonCell(dim, dim', rank)) && InBox(Used(dim', rank), CommonCell(dim, dim', rank))
  {
    PreserveRank(dim, rank, bounds);
    var dims, dim' := Used(dim, rank), NewDims(dim, true, bounds);
    forall i | 0 <= i < rank ensures Present(dims[i]) && dims[i] == dim[i + 1] {}
  }

  /** Two positions can be told apart by some content. */
  lemma {:induction false} Telling<T>(n: nat, k: nat, m: nat, k': nat, zero: T, x: T, y: T) returns (v: seq<T>)
    requires k < n && k' < m && k != k' && x != y
    ensures |v| == n && Resized(v, m, zero)[k'] != v[k]
  {
    var z := if zero == x then y else x;
    v := Copies(n, if z == x then y else x)[k := z];
  }

  /** A content that does not keep some common cell. */
  lemma {:induction false} CommonLost<T>(dim: seq<Dim>, rank: nat, bounds: seq<(int, int)>, zero: T, x: T, y: T)
    returns (v: seq<T>)
    requires HasRank(dim, rank) && x != y
    requires rank <= |bounds| <= 4 || |bounds| == 1
    requires var dim' := NewDims(dim, true, bounds); dim'[1].lo != dim[1].lo && Overlap(dim[1], dim'[1])
    requires Size(NewDims(dim, true, bounds)) > 0
    ensures |v| == Size(dim) && !KeepsCommon(dim, NewDims(dim, true, bounds), rank, v, zero)
  {
    hide Size, Index, NewDims, Overlap, InBox, RowMajor, Resized, Volume;
    var dim' := NewDims(dim, true, bounds);
    PreserveRank(dim, rank, bounds);
    var at := CommonCell(dim, dim', rank);
    CommonCellInBoth(dim, rank, bounds);
    SizeIsVolume(dim, rank);
    IndexIsRowMajor(dim, at);
    BoxPresent(dim, rank, at);
    BoxToRange(Used(dim, rank), at);
    PositionsDiffer(dim, dim', rank, at);
    var k := Index(dim, at);
    if 0 <= Index(dim', at) < Size(dim') {
      v := Telling(Size(dim), k, Size(dim'), Index(dim', at), zero, x, y);
    } else {
      v := Copies(Size(dim), zero);
    }
    assert !SameValue(dim, dim', v, zero, at);
  }

  lemma {:induction false} PositionsDiffer(dim: seq<Dim>, dim': seq<Dim>, rank: nat, at: seq<int>)
    requires HasRank(dim, rank) && HasRank(dim', rank) && |at| == rank && dim'[1].lo != dim[1].lo
    requires forall j | 2 <= j <= rank :: dim'[j] == dim[j]
    ensures Index(dim, at) != Index(dim', at)
  {
    var a, b := at[0] - dim[1].lo, at[0] - dim'[1].lo;
    if rank > 1 {
      Injective(a, b, dim[2].d);
      if rank > 2 {
        Injective(a * dim[2].d, b * dim[2].d, dim[3].d);
        if rank > 3 { Injective(a * dim[2].d * dim[3].d, b * dim[2].d * dim[3].d, dim[4].d); }
      }
    }
  }

  lemma {:induction false} Injective(a: int, b: int, d: int)
    requires a != b && d > 0
    ensures a * d != b * d
  {
    MulMono(a, b, d);
    MulMono(b, a, d);
  }

  // ---- Access ------------------------------------------------------------------------------------

  /** For one dimension, `operator()` fails exactly outside the bounds. */
  lemma {:induction false} OneDimensionChecked(dim: seq<Dim>, i: int)
    requires HasRank(dim, 1)
    ensures 0 <= Index(dim, [i]) < Size(dim) <==> dim[1].lo <= i <= dim[1].hi
  {
  }

  /** The first cell, but one row up and one column to the left. */
  function Neighbour(dims: seq<Dim>): seq<int> {
    seq(|dims|, i requires 0 <= i < |dims| =>
      dims[i].lo + if i == |dims| - 2 then 1 else if i == |dims| - 1 then -1 else 0)
  }

  lemma {:induction false} LowestCell(dims: seq<Dim>, at: seq<int>)
    requires |at| == |dims| && forall i | 0 <= i < |dims| :: at[i] == dims[i].lo
    ensures RowMajor(dims, at) == 0
  {
    if dims != [] {
      LowestCell(dims[..|dims| - 1], at[..|dims| - 1]);
    }
  }

  /** For more dimensions an index beyond its own bound is not noticed when the position is still in the
      vector, and in every array there is such an index: it names a cell of the next row. */
  lemma {:induction false} NextRowTaken(dims: seq<Dim>)
    requires AllPresent(dims) && |dims| >= 2
    ensures var at := Neighbour(dims);
            !InBox(dims, at) && RowMajor(dims, at) == dims[|dims| - 1].d - 1 && 0 <= RowMajor(dims, at) < Volume(dims)
  {
    hide Volume;
    var n, at := |dims|, Neighbour(dims);
    assert at[n - 1] < dims[n - 1].lo;
    LowestCell(dims[..n - 2], at[..n - 2]);
    RowMajorStep(dims, at, n - 2);
    RowMajorStep(dims, at, n - 1);
    assert dims[..n] == dims && at[..n] == at;
    assert RowMajor(dims[..n - 1], at[..n - 1]) == 0 * dims[n - 2].d + 1 == 1;
    VolumePositive(dims[..n - 1]);
    VolumeMore(dims);
    MulMono(0, Volume(dims[..n - 1]), dims[n - 1].d);
  }

  /** `operator()` refuses exactly the indices outside the bounds if and only if the array has one dimension. */
  lemma {:induction false} CheckedIff(dim: seq<Dim>, rank: nat)
    requires HasRank(dim, rank)
    ensures (forall at: seq<int> | |at| == rank :: Accessible(dim, at) <==> InBox(Used(dim, rank), at)) <==> rank == 1
  {
    hide Size, RowMajor, Index;
    if rank == 1 {
      forall at: seq<int> | |at| == 1 ensures Accessible(dim, at) <==> InBox(Used(dim, 1), at) {
        assert at == [at[0]];
        OneDimensionChecked(dim, at[0]);
      }
    } else {
      var dims := Used(dim, rank);
      assert AllPresent(dims);
      NextRowTaken(dims);
      IndexIsRowMajor(dim, Neighbour(dims));
      SizeIsVolume(dim, rank);
      assert Accessible(dim, Neighbour(dims)) && !InBox(dims, Neighbour(dims));
    }
  }

  /** `vector::at` does not throw. */
  predicate Accessible(dim: seq<Dim>, at: seq<int>)
    requires |dim| == 5 && 1 <= |at| <= 4
  {
    0 <= Index(dim, at) < Size(dim)
  }

  // ---- The object --------------------------------------------------------------------------------

  function Without<T(==)>(v: seq<T>, x: T): seq<T> {
    if v == [] then []
    else if v[0] == x then Without(v[1..], x)
    else [v[0]] + Without(v[1..], x)
  }

  lemma {:induction false} WithoutLast<T>(v: seq<T>, i: nat, x: T)
    requires i < |v|
    ensures Without(v[i..], x) == if v[i] == x then Without(v[i + 1..], x) else [v[i]] + Without(v[i + 1..], x)
  {
    assert v[i..][1..] == v[i + 1..];
  }

  /** One step of the backward scan, with everything behind `i` already cleared of `x`. */
  lemma {:induction false} ScanBack<T>(was: seq<T>, i: nat, x: T, vec: seq<T>)
    requires i < |was| && vec == was[..i + 1] + Without(was[i + 1..], x)
    ensures |vec| > i && vec[i] == was[i]
    ensures (if was[i] == x then vec[..i] + vec[i + 1..] else vec) == was[..i] + Without(was[i..], x)
  {
    WithoutLast(was, i, x);
    hide Without;
    var rest := Without(was[i + 1..], x);
    assert was[..i + 1] == was[..i] + [was[i]];
    assert vec[..i] == was[..i] && vec[i + 1..] == rest;
    assert was[..i] + [was[i]] + rest == was[..i] + ([was[i]] + rest);
  }

  lemma {:induction false} OneDimension(dim: seq<Dim>)
    requires |dim| == 5
    ensures HasRank(dim, 1)
       <==> (dim[1].d == dim[1].hi - dim[1].lo + 1 && dim[1].d >= 0 && dim[2].d == dim[3].d == dim[4].d == 0)
    ensures dim[2].d == dim[3].d == dim[4].d == 0 ==> Size(dim) == dim[1].d
  {
  }

  /** Nothing but the given value goes, and it goes completely. */
  lemma {:induction false} WithoutCounts<T>(v: seq<T>, x: T)
    ensures multiset(Without(v, x)) == multiset(v)[x := 0]
  {
    if v != [] {
      WithoutCounts(v[1..], x);
      assert v == [v[0]] + v[1..];
    }
  }

  class Array<T(==)> {
    var vec: seq<T>
    var dim: seq<Dim>
    var preserve: bool
    const zero: T

    /** The vector always has the size that the dimensions say. */
    ghost predicate Valid(rank: nat)
      reads this
    {
      HasRank(dim, rank) && |vec| == Size(dim)
    }

    /** The constructors with one to four pairs of bounds. */
    constructor (bounds: seq<(int, int)>, zero: T)
      requires 1 <= |bounds| <= 4
      ensures Valid(|bounds|) && AllPresent(Used(dim, |bounds|)) && !preserve && this.zero == zero
      ensures forall j | 1 <= j <= |bounds| :: dim[j] == Span(bounds[j - 1].0, bounds[j - 1].1)
      ensures vec == Copies(Size(dim), zero)
    {
      this.zero := zero;
      preserve := false;
      dim := [ABSENT, ABSENT, ABSENT, ABSENT, ABSENT];
      vec := [];
      new;
      Redim(bounds);
    }

    method Lbound(d: nat) returns (lo: int)
      requires |dim| == 5 && 1 <= d <= 4
      ensures lo == dim[d].lo
    {
      lo := dim[d].lo;
    }

    method Ubound(d: nat) returns (hi: int)
      requires |dim| == 5 && 1 <= d <= 4
      ensures hi == dim[d].hi
    {
      hi := dim[d].hi;
    }

    /** `redim()`: the vector follows the dimensions. */
    method Resize()
      requires |dim| == 5 && Size(dim) >= 0
      modifies this`vec
      ensures vec == Resized(if preserve then old(vec) else [], Size(dim), zero)
    {
      if !preserve { vec := []; }
      vec := Resized(vec, Size(dim), zero);
    }

    /** `redim` with one to four pairs of bounds. */
    method Redim(bounds: seq<(int, int)>)
      requires |dim| == 5 && 1 <= |bounds| <= 4
      requires preserve ==> exists rank: nat :: HasRank(dim, rank)
      modifies this`vec, this`dim
      ensures dim == NewDims(old(dim), preserve, bounds)
      ensures Size(dim) >= 0 && vec == Resized(if preserve then old(vec) else [], Size(dim), zero)
      ensures !preserve ==> Valid(|bounds|)
      ensures forall rank: nat | preserve && old(HasRank(dim, rank)) :: Valid(NewRank(rank, |bounds|))
    {
      hide Size;
      ghost var was := dim;
      dim := dim[1 := Span(bounds[0].0, bounds[0].1)];
      if |bounds| == 1 {
        if !preserve { dim := dim[2 := ABSENT][3 := ABSENT][4 := ABSENT]; }
      } else {
        if !preserve {
          dim := dim[2 := Span(bounds[1].0, bounds[1].1)];
          if |bounds| >= 3 { dim := dim[3 := Span(bounds[2].0, bounds[2].1)]; }
          if |bounds| == 4 { dim := dim[4 := Span(bounds[3].0, bounds[3].1)]; }
        }
        if |bounds| <= 2 { dim := dim[3 := ABSENT]; }
        if |bounds| <= 3 { dim := dim[4 := ABSENT]; }
      }
      assert dim == NewDims(was, preserve, bounds);
      if preserve {
        forall rank: nat | HasRank(was, rank)
          ensures HasRank(dim, NewRank(rank, |bounds|)) && Size(dim) >= 0
        {
          PreserveRank(was, rank, bounds);
          SizeIsVolume(dim, NewRank(rank, |bounds|));
        }
      } else {
        FreshRank(was, bounds);
      }
      Resize();
    }

    /** `operator()`: `None` where `vector::at` throws. */
    method Get(at: seq<int>) returns (x: Option<T>)
      requires |dim| == 5 && 1 <= |at| <= 4
      ensures x == if 0 <= Index(dim, at) < |vec| then Some(vec[Index(dim, at)]) else None
    {
      var k := Index(dim, at);
      x := if 0 <= k < |vec| then Some(vec[k]) else None;
    }

    /** Assignment through `operator()`; false where `vector::at` throws. */
    method Set(at: seq<int>, x: T) returns (ok: bool)
      requires |dim| == 5 && 1 <= |at| <= 4
      modifies this`vec
      ensures ok == (0 <= Index(dim, at) < |old(vec)|)
      ensures vec == if ok then old(vec)[Index(dim, at) := x] else old(vec)
    {
      var k := Index(dim, at);
      ok := 0 <= k < |vec|;
      if ok { vec := vec[k := x]; }
    }

    /** `<<`; refused for more than one dimension. */
    method Append(x: T) returns (ok: bool)
      requires exists rank: nat :: Valid(rank)
      modifies this`vec, this`dim
      ensures ok <==> old(Valid(1))
      ensures ok ==> Valid(1) && vec == old(vec) + [x] && dim[1].lo == old(dim)[1].lo
      ensures !ok ==> vec == old(vec) && dim == old(dim)
    {
      if dim[2].d != 0 { return false; }
      assert Valid(1);
      dim := dim[1 := Dim(dim[1].lo, dim[1].hi + 1, dim[1].d + 1)];
      vec := vec + [x];
      return true;
    }

    /** `>>`: from the end to the front, every element equal to `x` is erased. */
    method Remove(x: T) returns (ok: bool)
      requires exists rank: nat :: Valid(rank)
      modifies this`vec, this`dim
      ensures ok <==> old(Valid(1))
      ensures ok ==> Valid(1) && vec == Without(old(vec), x) && dim[1].lo == old(dim)[1].lo
      ensures !ok ==> vec == old(vec) && dim == old(dim)
    {
      if dim[2].d != 0 { return false; }
      assert Valid(1);
      ghost var was := vec;
      var i := |vec|;
      assert was == was[..i] + Without(was[i..], x);
      hide Without, Size, HasRank;
      while i > 0
        invariant 0 <= i <= |was| && Valid(1) && dim[1].lo == old(dim)[1].lo
        invariant vec == was[..i] + Without(was[i..], x)
      {
        i := i - 1;
        ScanBack(was, i, x, vec);
        OneDimension(dim);
        if vec[i] == x {
          dim := dim[1 := Dim(dim[1].lo, dim[1].hi - 1, dim[1].d - 1)];
          vec := vec[..i] + vec[i + 1..];
          OneDimension(dim);
        }
      }
      return true;
    }
  }
}
