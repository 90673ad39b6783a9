/** The coordinate bookkeeping of the microlens-array simulator: a square
    sampling grid with an odd number of locations per side, centred on the
    origin, and an odd number of equal, odd-width subgrids (one per lenslet)
    that partition it.

    Only the integer, index-level part is modelled. The physical and Fourier
    unit conversions (px, pX, pfX, ...) are floating-point scalings of the
    index coordinates and are left out; the physical parameters are stored
    as given. */
module Grids {

  /** A Python argument to a size parameter: a value of type `int` (a bool
      is one too in Python), or any value that is not an `int`. */
  datatype Arg = IntArg(n: int) | NonIntArg

  /** The exceptions a constructor can raise: the two of the grid module,
      and the `ZeroDivisionError` of a conversion factor dividing by
      gridSize - 1 or by physicalSize. */
  datatype GridException =
    | ImproperGridSize(param: SizeParam)
    | ImproperDimension
    | ZeroDivision

  /** The size parameter an `ImproperGridSizeException` message names. */
  datatype SizeParam = GridSizeParam | NumSubgridsParam | SubgridSizeParam

  /** The result of a constructor: the constructed value or the exception raised. */
  datatype Outcome<T> = Ok(value: T) | Raised(error: GridException)

  /** The index-coordinate meshes of a grid: the coordinates `x` for dim 1,
      the meshgrid pair (the source's `x`, `y`) for dim 2. */
  datatype Mesh = Line(x: seq<int>) | Plane(meshX: seq<seq<int>>, meshY: seq<seq<int>>)

  /** A square sampling grid. */
  datatype Grid = Grid(gridSize: int, physicalSize: real, wavelength: real,
                       focalLength: real, mesh: Mesh)

  /** A grid partitioned into numSubgrids subgrids of subgridSize locations
      per side. The grid part is held by composition. */
  datatype GridArray = GridArray(numSubgrids: int, subgridSize: int, grid: Grid,
                                 subgridCenters: seq<int>,
                                 subgridX: seq<seq<int>>, subgridY: seq<seq<int>>)

  // ---------------------------------------------------------------------
  // Parity

  /** `isEven`: Python's `x % 2 == 0`. Python's `%` floors and Dafny's is
      Euclidean; for the divisor 2 both give 0 or 1, so they agree. */
  function IsEven(x: int): (r: bool)
    ensures r <==> x == 2 * (x / 2)
    ensures !r <==> x == 2 * (x / 2) + 1
  {
    x % 2 == 0
  }

  /** The product of two odd integers is odd. */
  lemma OddProduct(a: int, b: int)
    requires !IsEven(a) && !IsEven(b)
    ensures !IsEven(a * b)
  {
    var p, q := a / 2, b / 2;
    assert a == 2 * p + 1 && b == 2 * q + 1;
    calc {
      a * b;
      (2 * p + 1) * (2 * q + 1);
      2 * (2 * p * q + p + q) + 1;
    }
    ModOfOddForm(a * b, 2 * p * q + p + q);
  }

  lemma ModOfOddForm(x: int, k: int)
    requires x == 2 * k + 1
    ensures x % 2 == 1
  {
  }

  /** The size check of the constructors: the argument is an `int`, is not
      even and is positive. */
  predicate IsOddPositive(a: Arg): (r: bool)
    ensures r <==> a.IntArg? && a.n > 0 && a.n % 2 == 1
  {
    a.IntArg? && !IsEven(a.n) && a.n > 0
  }

  // ---------------------------------------------------------------------
  // Integer helpers

  /** Euclidean division is determined by any quotient/remainder pair. */
  lemma DivModUnique(x: int, d: int, q: int, r: int)
    requires d > 0 && 0 <= r < d && x == q * d + r
    ensures x / d == q && x % d == r
  {
    var q', r' := x / d, x % d;
    assert x == q' * d + r';
    assert (q - q') * d == r' - r;
    MultipleInOpenInterval(q - q', d);
  }

  /** The only multiple of d strictly between -d and d is 0. */
  lemma MultipleInOpenInterval(t: int, d: int)
    requires d > 0 && -d < t * d < d
    ensures t == 0
  {
    if t >= 1 {
      MulLeq(1, t, d);
    } else if t <= -1 {
      MulLeq(t, -1, d);
    }
  }

  /** Multiplying by a non-negative factor keeps the order. */
  lemma MulLeq(a: int, b: int, s: int)
    requires a <= b && s >= 0
    ensures a * s <= b * s
  {
    assert b * s - a * s == (b - a) * s;
  }

  /** Writing an odd positive size n as 2 * half + 1. */
  lemma OddHalf(n: int)
    requires n > 0 && !IsEven(n)
    ensures n == 2 * (n / 2) + 1 && n / 2 >= 0
  {
  }

  // ---------------------------------------------------------------------
  // Coordinates

  /** `np.arange(lo, hi)` on integers: lo, lo + 1, ..., hi - 1. */
  function Arange(lo: int, hi: int): (r: seq<int>)
    ensures |r| == if lo < hi then hi - lo else 0
    ensures forall i :: 0 <= i < |r| ==> r[i] == lo + i
    decreases hi - lo
  {
    if lo < hi then [lo] + Arange(lo + 1, hi) else []
  }

  /** The centred index coordinates of a grid of n locations,
      `np.arange(-floor(n/2), floor(n/2) + 1)`: n consecutive integers,
      symmetric about 0, with 0 in the middle. */
  function Coords(n: int): (r: seq<int>)
    requires n > 0 && !IsEven(n)
    ensures |r| == n
    ensures forall i :: 0 <= i < n ==> r[i] == i - n / 2
  {
    OddHalf(n);
    Arange(-(n / 2), n / 2 + 1)
  }

  /** The coordinates run from -(n-1)/2 to (n-1)/2, hold 0 in the middle
      and mirror about it. */
  lemma CoordsSymmetric(n: int)
    requires n > 0 && !IsEven(n)
    ensures Coords(n)[0] == -((n - 1) / 2) && Coords(n)[n - 1] == (n - 1) / 2
    ensures Coords(n)[n / 2] == 0
    ensures forall i :: 0 <= i < n ==> Coords(n)[i] == -Coords(n)[n - 1 - i]
  {
    OddHalf(n);
  }

  /** First output of `np.meshgrid(a, b)`: |b| rows, each a copy of a. */
  function MeshX(a: seq<int>, b: seq<int>): (r: seq<seq<int>>)
    ensures |r| == |b|
    ensures forall i :: 0 <= i < |b| ==> r[i] == a
  {
    seq(|b|, _ => a)
  }

  /** Second output of `np.meshgrid(a, b)`: |b| rows of |a| entries, row i
      holding b[i] throughout. */
  function MeshY(a: seq<int>, b: seq<int>): (r: seq<seq<int>>)
    ensures |r| == |b|
    ensures forall i :: 0 <= i < |b| ==> |r[i]| == |a|
    ensures forall i, j :: 0 <= i < |b| && 0 <= j < |a| ==> r[i][j] == b[i]
  {
    seq(|b|, i requires 0 <= i < |b| => seq(|a|, _ => b[i]))
  }

  /** What a successfully constructed grid satisfies: an odd positive size,
      and meshes holding, for each location, its offset from the middle
      (along a row for x, down a column for y). */
  predicate GridValid(g: Grid)
  {
    g.gridSize > 0 && !IsEven(g.gridSize) && MeshValid(g.gridSize, g.mesh)
  }

  /** The meshes of a grid of N locations per side hold index coordinates:
      location p is at p - N / 2; in 2-D, cell (i, j) is at x = j - N / 2,
      y = i - N / 2. */
  predicate MeshValid(N: int, mesh: Mesh)
  {
    match mesh
    case Line(x) =>
      |x| == N && forall p :: 0 <= p < N ==> x[p] == p - N / 2
    case Plane(x, y) =>
      |x| == N && |y| == N &&
      (forall i :: 0 <= i < N ==> |x[i]| == N && |y[i]| == N) &&
      forall i, j :: 0 <= i < N && 0 <= j < N ==> x[i][j] == j - N / 2 && y[i][j] == i - N / 2
  }

  /** `Grid.__init__`: the size check comes first, then the dimension check,
      then the conversion factors, which divide by gridSize - 1 and by
      physicalSize. */
  function NewGrid(gridSize: Arg, physicalSize: real, wavelength: real,
                   focalLength: real, dim: int): (r: Outcome<Grid>)
    ensures r == Raised(ImproperGridSize(GridSizeParam)) <==> !IsOddPositive(gridSize)
    ensures r.Raised? && r.error.ImproperGridSize? ==> r.error.param == GridSizeParam
    ensures r == Raised(ImproperDimension) <==>
              IsOddPositive(gridSize) && dim != 1 && dim != 2
    ensures r == Raised(ZeroDivision) <==>
              IsOddPositive(gridSize) && (dim == 1 || dim == 2) &&
              (gridSize.n == 1 || physicalSize == 0.0)
    ensures r.Ok? ==>
              GridValid(r.value) && r.value.gridSize == gridSize.n &&
              r.value.physicalSize == physicalSize &&
              r.value.wavelength == wavelength &&
              r.value.focalLength == focalLength &&
              (r.value.mesh.Line? <==> dim == 1) &&
              (r.value.mesh.Plane? <==> dim == 2)
  {
    if !IsOddPositive(gridSize) then
      Raised(ImproperGridSize(GridSizeParam))
    else
      var coords := Coords(gridSize.n);
      var mesh := if dim == 2 then Ok(Plane(MeshX(coords, coords), MeshY(coords, coords)))
                  else if dim == 1 then Ok(Line(coords))
                  else Raised(ImproperDimension);
      if mesh.Raised? then
        Raised(mesh.error)
      else if gridSize.n - 1 == 0 || physicalSize == 0.0 then
        Raised(ZeroDivision)
      else
        Ok(Grid(gridSize.n, physicalSize, wavelength, focalLength, mesh.value))
  }

  /** The meshes of a valid grid are those `Grid.__init__` builds: the
      centred coordinates in 1-D, `np.meshgrid(coords, coords)` in 2-D. */
  lemma ValidMeshIsMeshgrid(g: Grid)
    requires GridValid(g)
    ensures g.mesh.Line? ==> g.mesh.x == Coords(g.gridSize)
    ensures g.mesh.Plane? ==>
              g.mesh.meshX == MeshX(Coords(g.gridSize), Coords(g.gridSize)) &&
              g.mesh.meshY == MeshY(Coords(g.gridSize), Coords(g.gridSize))
  {
    var N, c := g.gridSize, Coords(g.gridSize);
    if g.mesh.Plane? {
      var x, y := g.mesh.meshX, g.mesh.meshY;
      forall i | 0 <= i < N
        ensures x[i] == MeshX(c, c)[i] && y[i] == MeshY(c, c)[i]
      {
      }
    }
  }

  // ---------------------------------------------------------------------
  // Subgrid array

  /** `subgridSize * np.arange(-floor(n/2), floor(n/2) + 1)`: the centres of
      the subgrids, evenly spaced by subgridSize, symmetric about 0. */
  function SubgridCenters(numSubgrids: int, subgridSize: int): (r: seq<int>)
    requires numSubgrids > 0 && !IsEven(numSubgrids)
    requires subgridSize > 0 && !IsEven(subgridSize)
    ensures |r| == numSubgrids
    ensures forall k :: 0 <= k < numSubgrids ==>
              r[k] == subgridSize * (k - numSubgrids / 2)
  {
    var c := Coords(numSubgrids);
    seq(numSubgrids, k requires 0 <= k < numSubgrids => subgridSize * c[k])
  }

  /** The centres step by subgridSize, mirror about 0 and vanish in the middle. */
  lemma SubgridCentersShape(numSubgrids: int, subgridSize: int)
    requires numSubgrids > 0 && !IsEven(numSubgrids)
    requires subgridSize > 0 && !IsEven(subgridSize)
    ensures SubgridCenters(numSubgrids, subgridSize)[numSubgrids / 2] == 0
    ensures forall k :: 0 <= k < numSubgrids - 1 ==>
              SubgridCenters(numSubgrids, subgridSize)[k + 1] ==
              SubgridCenters(numSubgrids, subgridSize)[k] + subgridSize
    ensures forall k :: 0 <= k < numSubgrids ==>
              SubgridCenters(numSubgrids, subgridSize)[k] ==
              -SubgridCenters(numSubgrids, subgridSize)[numSubgrids - 1 - k]
  {
    var c := SubgridCenters(numSubgrids, subgridSize);
    var m := numSubgrids / 2;
    OddHalf(numSubgrids);
    forall k | 0 <= k < numSubgrids - 1
      ensures c[k + 1] == c[k] + subgridSize
    {
      assert subgridSize * (k + 1 - m) == subgridSize * (k - m) + subgridSize;
    }
    forall k | 0 <= k < numSubgrids
      ensures c[k] == -c[numSubgrids - 1 - k]
    {
      assert numSubgrids - 1 - k - m == -(k - m);
      assert subgridSize * (-(k - m)) == -(subgridSize * (k - m));
    }
  }

  /** What a successfully constructed grid array satisfies. */
  predicate ArrayValid(ga: GridArray)
  {
    ga.numSubgrids > 0 && !IsEven(ga.numSubgrids) &&
    ga.subgridSize > 0 && !IsEven(ga.subgridSize) &&
    GridValid(ga.grid) &&
    ga.grid.gridSize == ga.numSubgrids * ga.subgridSize &&
    |ga.subgridCenters| == ga.numSubgrids &&
    forall k :: 0 <= k < ga.numSubgrids ==>
      ga.subgridCenters[k] == ga.subgridSize * (k - ga.numSubgrids / 2)
  }

  /** The centres of a valid grid array are those `GridArray.__init__`
      computes. */
  lemma ValidCentres(ga: GridArray)
    requires ArrayValid(ga)
    ensures ga.subgridCenters == SubgridCenters(ga.numSubgrids, ga.subgridSize)
  {
  }

  /** The grid built by a grid array, numSubgrids * subgridSize locations
      wide, always passes the grid-size check of `Grid.__init__`. */
  lemma ParentSizeCheckPasses(numSubgrids: int, subgridSize: int)
    requires numSubgrids > 0 && !IsEven(numSubgrids)
    requires subgridSize > 0 && !IsEven(subgridSize)
    ensures IsOddPositive(IntArg(numSubgrids * subgridSize))
  {
    OddProduct(numSubgrids, subgridSize);
  }

  /** A product of two positive sizes is 1 only when both are. */
  lemma UnitProduct(n: int, s: int)
    requires n >= 1 && s >= 1
    ensures n * s == 1 <==> n == 1 && s == 1
  {
    if n >= 2 {
      MulLeq(2, n, s);
    } else if s >= 2 {
      MulLeq(2, s, n);
    }
  }

  /** `GridArray.__init__`: numSubgrids is checked, then subgridSize, then
      the grid of numSubgrids * subgridSize locations is built, whose own
      size check cannot fail; its dimension check and its conversion factors
      can. Each size check names its own parameter. */
  function NewGridArray(numSubgrids: Arg, subgridSize: Arg, physicalSize: real,
                        wavelength: real, focalLength: real, dim: int): (r: Outcome<GridArray>)
    ensures r == Raised(ImproperGridSize(NumSubgridsParam)) <==> !IsOddPositive(numSubgrids)
    ensures r == Raised(ImproperGridSize(SubgridSizeParam)) <==>
              IsOddPositive(numSubgrids) && !IsOddPositive(subgridSize)
    ensures r != Raised(ImproperGridSize(GridSizeParam))
    ensures r == Raised(ImproperDimension) <==>
              IsOddPositive(numSubgrids) && IsOddPositive(subgridSize) &&
              dim != 1 && dim != 2
    ensures r == Raised(ZeroDivision) <==>
              IsOddPositive(numSubgrids) && IsOddPositive(subgridSize) &&
              (dim == 1 || dim == 2) &&
              ((numSubgrids.n == 1 && subgridSize.n == 1) || physicalSize == 0.0)
    ensures r.Ok? ==>
              ArrayValid(r.value) &&
              r.value.numSubgrids == numSubgrids.n &&
              r.value.subgridSize == subgridSize.n &&
              r.value.grid.physicalSize == physicalSize &&
              r.value.grid.wavelength == wavelength &&
              r.value.grid.focalLength == focalLength &&
              (r.value.grid.mesh.Line? <==> dim == 1) &&
              r.value.subgridX == MeshX(r.value.subgridCenters, r.value.subgridCenters) &&
              r.value.subgridY == MeshY(r.value.subgridCenters, r.value.subgridCenters)
  {
    if !IsOddPositive(numSubgrids) then
      Raised(ImproperGridSize(NumSubgridsParam))
    else if !IsOddPositive(subgridSize) then
      Raised(ImproperGridSize(SubgridSizeParam))
    else
      var n, s := numSubgrids.n, subgridSize.n;
      ParentSizeCheckPasses(n, s);
      UnitProduct(n, s);
      match NewGrid(IntArg(n * s), physicalSize, wavelength, focalLength, dim)
      case Raised(e) => Raised(e)
      case Ok(g) =>
        var centers := SubgridCenters(n, s);
        Ok(GridArray(n, s, g, centers, MeshX(centers, centers), MeshY(centers, centers)))
  }

  // ---------------------------------------------------------------------
  // Subgrid windows

  /** Python indexing of subgridCenters: a negative index counts from the end. */
  function SubgridIndex(ga: GridArray, ind: int): (k: int)
    requires -ga.numSubgrids <= ind < ga.numSubgrids
    ensures 0 <= k < ga.numSubgrids
    ensures k % ga.numSubgrids == ind % ga.numSubgrids
    ensures 0 <= ind ==> k == ind
  {
    if ind < 0 then
      DivModUnique(ind, ga.numSubgrids, -1, ind + ga.numSubgrids);
      DivModUnique(ind + ga.numSubgrids, ga.numSubgrids, 0, ind + ga.numSubgrids);
      ind + ga.numSubgrids
    else
      ind
  }

  /** The mask test `center - h <= x <= center + h` with h = floor(subgridSize/2). */
  predicate InWindow(center: int, half: int, x: int): (r: bool)
    ensures r <==> -half <= x - center <= half
  {
    x >= center - half && x <= center + half
  }

  /** Position p is one of the s positions k*s, ..., k*s + s - 1 of block k. */
  predicate InSubgrid(k: int, s: int, p: int)
  {
    k * s <= p < k * s + s
  }

  /** floor(N/2) for N = n * s, both odd: s * floor(n/2) + floor(s/2). */
  lemma HalfProduct(n: int, s: int)
    requires n > 0 && !IsEven(n) && s > 0 && !IsEven(s)
    ensures (n * s) / 2 == s * (n / 2) + s / 2
  {
    var m, h := n / 2, s / 2;
    OddHalf(n);
    OddHalf(s);
    assert n * s == (2 * m + 1) * s;
    assert (2 * m + 1) * s == 2 * (s * m) + s;
    DivModUnique(n * s, 2, s * m + h, 1);
  }

  /** The arithmetic behind every window fact: grid position p (coordinate
      p - floor(N/2), N = n * s) lies in the window of subgrid k exactly when
      p is one of the s positions of block k. */
  lemma WindowPositions(n: int, s: int, k: int, p: int)
    requires n > 0 && !IsEven(n) && s > 0 && !IsEven(s)
    requires 0 <= k < n
    ensures InWindow(s * (k - n / 2), s / 2, p - (n * s) / 2) <==> InSubgrid(k, s, p)
  {
    HalfProduct(n, s);
    OddHalf(s);
    assert s * (k - n / 2) == k * s - s * (n / 2);
  }

  /** The window of subgrid k, read on grid positions, is block k. */
  lemma WindowIsBlock(ga: GridArray, k: int)
    requires ArrayValid(ga) && 0 <= k < ga.numSubgrids
    ensures forall p :: InWindow(ga.subgridCenters[k], ga.subgridSize / 2, p - ga.grid.gridSize / 2)
                        <==> InSubgrid(k, ga.subgridSize, p)
  {
    forall p
      ensures InWindow(ga.subgridCenters[k], ga.subgridSize / 2, p - ga.grid.gridSize / 2)
              <==> InSubgrid(k, ga.subgridSize, p)
    {
      WindowPositions(ga.numSubgrids, ga.subgridSize, k, p);
    }
  }

  /** Every block lies inside the grid. */
  lemma BlockInsideGrid(n: int, s: int, k: int)
    requires n > 0 && s > 0 && 0 <= k < n
    ensures 0 <= k * s && k * s + s <= n * s
  {
    MulLeq(0, k, s);
    MulLeq(k + 1, n, s);
  }

  /** The window of a subgrid lies inside the grid: its lowest and highest
      coordinates are within -floor(N/2) .. floor(N/2). */
  lemma WindowInsideGrid(ga: GridArray, k: int)
    requires ArrayValid(ga) && 0 <= k < ga.numSubgrids
    ensures -(ga.grid.gridSize / 2) <= ga.subgridCenters[k] - ga.subgridSize / 2
    ensures ga.subgridCenters[k] + ga.subgridSize / 2 <= ga.grid.gridSize / 2
  {
    var n, s := ga.numSubgrids, ga.subgridSize;
    BlockInsideGrid(n, s, k);
    WindowPositions(n, s, k, k * s);
    WindowPositions(n, s, k, k * s + s - 1);
  }

  /** The 1-D mask of subgrid `ind`, one boolean per grid location. */
  function Mask(ga: GridArray, ind: int): (m: seq<bool>)
    requires ArrayValid(ga) && ga.grid.mesh.Line?
    requires -ga.numSubgrids <= ind < ga.numSubgrids
    ensures |m| == ga.grid.gridSize
    ensures forall p :: 0 <= p < |m| ==>
              (m[p] <==> InSubgrid(SubgridIndex(ga, ind), ga.subgridSize, p))
  {
    var x := ga.grid.mesh.x;
    var k := SubgridIndex(ga, ind);
    WindowIsBlock(ga, k);
    seq(|x|, p requires 0 <= p < |x| => InWindow(ga.subgridCenters[k], ga.subgridSize / 2, x[p]))
  }

  /** `sample` is the picture, over N locations, of the field on block k of
      width s (read at each location's index coordinate), and `zero`
      elsewhere. */
  ghost predicate BlockPicture<V>(N: int, s: int, k: int, sample: seq<V>,
                                  fieldIn: int -> V, zero: V)
  {
    |sample| == N &&
    forall p :: 0 <= p < N ==>
      sample[p] == if InSubgrid(k, s, p) then fieldIn(p - N / 2) else zero
  }

  /** `GridArray.rect`: the field sampled on the whole 1-D grid, kept on the
      subgrid's window (block k of s locations) and `zero` elsewhere. The
      field is a function of the index coordinate. */
  function Rect<V>(ga: GridArray, fieldIn: int -> V, xInd: int, zero: V): (r: seq<V>)
    requires ArrayValid(ga) && ga.grid.mesh.Line?
    requires -ga.numSubgrids <= xInd < ga.numSubgrids
    ensures BlockPicture(ga.grid.gridSize, ga.subgridSize, SubgridIndex(ga, xInd), r, fieldIn, zero)
  {
    var x := ga.grid.mesh.x;
    var mask := Mask(ga, xInd);
    seq(|x|, p requires 0 <= p < |x| => if mask[p] then fieldIn(x[p]) else zero)
  }

  /** Block membership determines the block: p lies in block p / s only. */
  lemma BlockOf(n: int, s: int, p: int)
    requires n > 0 && s > 0 && 0 <= p < n * s
    ensures 0 <= p / s < n && InSubgrid(p / s, s, p)
    ensures forall k :: InSubgrid(k, s, p) ==> k == p / s
  {
    DivBelow(p, s, n);
    forall k | InSubgrid(k, s, p)
      ensures k == p / s
    {
      DivModUnique(p, s, k, p - k * s);
    }
  }

  /** The 1-D masks tile the grid: location p belongs to subgrid p / s, and
      to no other. */
  lemma MasksPartition(ga: GridArray, p: int)
    requires ArrayValid(ga) && ga.grid.mesh.Line?
    requires 0 <= p < ga.grid.gridSize
    ensures 0 <= p / ga.subgridSize < ga.numSubgrids
    ensures Mask(ga, p / ga.subgridSize)[p]
    ensures forall k :: 0 <= k < ga.numSubgrids && Mask(ga, k)[p] ==> k == p / ga.subgridSize
  {
    BlockOf(ga.numSubgrids, ga.subgridSize, p);
  }

  /** p < n * s gives p / s < n. */
  lemma DivBelow(p: int, s: int, n: int)
    requires s > 0 && 0 <= p < n * s
    ensures 0 <= p / s < n
  {
    var q := p / s;
    if q >= n {
      MulLeq(n, q, s);
    }
  }

  /** Distinct subgrids have disjoint 1-D windows. */
  lemma MasksDisjoint(ga: GridArray, k1: int, k2: int, p: int)
    requires ArrayValid(ga) && ga.grid.mesh.Line?
    requires 0 <= k1 < ga.numSubgrids && 0 <= k2 < ga.numSubgrids && k1 != k2
    requires 0 <= p < ga.grid.gridSize
    ensures !(Mask(ga, k1)[p] && Mask(ga, k2)[p])
  {
    MasksPartition(ga, p);
  }

  // ---------------------------------------------------------------------
  // Counting masked locations

  /** The number of true entries of a mask. */
  function CountTrue(m: seq<bool>): (c: nat)
    ensures c <= |m|
  {
    if m == [] then 0 else (if m[0] then 1 else 0) + CountTrue(m[1..])
  }

  /** The number of true entries of a 2-D mask. */
  function CountTrue2(m: seq<seq<bool>>): (c: nat)
  {
    if m == [] then 0 else CountTrue(m[0]) + CountTrue2(m[1..])
  }

  /** A mask true exactly on the positions a .. b - 1 has b - a true entries. */
  lemma {:induction false} CountInterval(m: seq<bool>, a: int, b: int)
    requires 0 <= a <= b <= |m|
    requires forall p :: 0 <= p < |m| ==> (m[p] <==> a <= p < b)
    ensures CountTrue(m) == b - a
  {
    if m != [] {
      var a', b' := if a > 0 then a - 1 else 0, if b > 0 then b - 1 else 0;
      assert forall p :: 0 <= p < |m[1..]| ==> (m[1..][p] <==> a' <= p < b') by {
        forall p | 0 <= p < |m[1..]|
          ensures m[1..][p] <==> a' <= p < b'
        {
          assert m[1..][p] == m[p + 1];
        }
      }
      CountInterval(m[1..], a', b');
    }
  }

  /** Rows a .. b - 1 of m each hold c true entries; the other rows none. */
  ghost predicate RowCounts(m: seq<seq<bool>>, a: int, b: int, c: int)
  {
    forall i :: 0 <= i < |m| ==> CountTrue(m[i]) == if a <= i < b then c else 0
  }

  /** Dropping the first row shifts the counted rows down by one. */
  lemma RowCountsTail(m: seq<seq<bool>>, a: int, b: int, c: int)
    requires m != [] && 0 <= a <= b && RowCounts(m, a, b, c)
    ensures RowCounts(m[1..], if a > 0 then a - 1 else 0, if b > 0 then b - 1 else 0, c)
    ensures CountTrue(m[0]) == if a == 0 < b then c else 0
  {
    var a', b' := if a > 0 then a - 1 else 0, if b > 0 then b - 1 else 0;
    forall i | 0 <= i < |m[1..]|
      ensures CountTrue(m[1..][i]) == if a' <= i < b' then c else 0
    {
      assert m[1..][i] == m[i + 1];
    }
  }

  /** A 2-D mask whose rows a .. b - 1 each hold c true entries and whose
      other rows hold none has (b - a) * c true entries. */
  lemma {:induction false} CountRows(m: seq<seq<bool>>, a: int, b: int, c: int)
    requires 0 <= a <= b <= |m| && RowCounts(m, a, b, c)
    ensures CountTrue2(m) == (b - a) * c
  {
    if m != [] {
      var a', b' := if a > 0 then a - 1 else 0, if b > 0 then b - 1 else 0;
      RowCountsTail(m, a, b, c);
      CountRows(m[1..], a', b', c);
      var w := b' - a';
      if a == 0 < b {
        assert b - a == w + 1;
        assert (w + 1) * c == w * c + c;
      } else {
        assert b - a == w;
      }
    }
  }

  /** The 1-D window of every subgrid holds exactly subgridSize locations. */
  lemma MaskCount(ga: GridArray, k: int)
    requires ArrayValid(ga) && ga.grid.mesh.Line?
    requires 0 <= k < ga.numSubgrids
    ensures CountTrue(Mask(ga, k)) == ga.subgridSize
  {
    BlockInsideGrid(ga.numSubgrids, ga.subgridSize, k);
    CountInterval(Mask(ga, k), k * ga.subgridSize, k * ga.subgridSize + ga.subgridSize);
  }

  // ---------------------------------------------------------------------
  // 2-D windows

  /** `m` is the N x N mask of block (kx, ky) of side s: cell (i, j) is set
      exactly when column j is in block kx and row i in block ky. */
  ghost predicate MaskPicture2(N: int, s: int, kx: int, ky: int, m: seq<seq<bool>>)
  {
    |m| == N && (forall i :: 0 <= i < N ==> |m[i]| == N) &&
    forall i, j :: 0 <= i < N && 0 <= j < N ==>
      (m[i][j] <==> InSubgrid(kx, s, j) && InSubgrid(ky, s, i))
  }

  /** The 2-D mask of subgrid (xInd, yInd): the conjunction of the x test on
      x[i][j] and the y test on y[i][j]. */
  function Mask2(ga: GridArray, xInd: int, yInd: int): (m: seq<seq<bool>>)
    requires ArrayValid(ga) && ga.grid.mesh.Plane?
    requires -ga.numSubgrids <= xInd < ga.numSubgrids
    requires -ga.numSubgrids <= yInd < ga.numSubgrids
    ensures MaskPicture2(ga.grid.gridSize, ga.subgridSize,
                         SubgridIndex(ga, xInd), SubgridIndex(ga, yInd), m)
  {
    var N, h := ga.grid.gridSize, ga.subgridSize / 2;
    var x, y := ga.grid.mesh.meshX, ga.grid.mesh.meshY;
    var kx, ky := SubgridIndex(ga, xInd), SubgridIndex(ga, yInd);
    WindowIsBlock(ga, kx);
    WindowIsBlock(ga, ky);
    seq(N, i requires 0 <= i < N =>
          seq(N, j requires 0 <= j < N =>
                InWindow(ga.subgridCenters[kx], h, x[i][j]) &&
                InWindow(ga.subgridCenters[ky], h, y[i][j])))
  }

  /** `sample` is the N x N picture of the field on block (kx, ky) of side s,
      and `zero` elsewhere. */
  ghost predicate BlockPicture2<V>(N: int, s: int, kx: int, ky: int, sample: seq<seq<V>>,
                             fieldIn: (int, int) -> V, zero: V)
  {
    |sample| == N && (forall r :: 0 <= r < |sample| ==> |sample[r]| == N) &&
    forall a, b :: 0 <= a < N && 0 <= b < N ==>
      sample[a][b] == if InSubgrid(kx, s, b) && InSubgrid(ky, s, a)
                      then fieldIn(b - N / 2, a - N / 2) else zero
  }

  /** `GridArray.rect2`: the field sampled on the whole 2-D grid (x along
      columns, y along rows), kept on the square window of subgrid
      (xInd, yInd) and `zero` elsewhere. */
  function Rect2<V>(ga: GridArray, fieldIn: (int, int) -> V, xInd: int, yInd: int,
                    zero: V): (r: seq<seq<V>>)
    requires ArrayValid(ga) && ga.grid.mesh.Plane?
    requires -ga.numSubgrids <= xInd < ga.numSubgrids
    requires -ga.numSubgrids <= yInd < ga.numSubgrids
    ensures BlockPicture2(ga.grid.gridSize, ga.subgridSize,
                          SubgridIndex(ga, xInd), SubgridIndex(ga, yInd), r, fieldIn, zero)
  {
    var N, mask := ga.grid.gridSize, Mask2(ga, xInd, yInd);
    MaskedPicture2(N, ga.subgridSize, SubgridIndex(ga, xInd), SubgridIndex(ga, yInd),
                   mask, ga.grid.mesh, fieldIn, zero);
    MaskedField(mask, ga.grid.mesh, fieldIn, zero)
  }

  /** The 2-D mesh has the shape of the mask (numpy would refuse to
      multiply arrays of different shapes). */
  predicate SameShape(mask: seq<seq<bool>>, mesh: Mesh)
    requires mesh.Plane?
  {
    |mesh.meshX| == |mask| && |mesh.meshY| == |mask| &&
    forall i :: 0 <= i < |mask| ==> |mesh.meshX[i]| == |mask[i]| && |mesh.meshY[i]| == |mask[i]|
  }

  /** `fieldSample * mask` on a 2-D mesh: the field (at each cell's x and y)
      where the mask is set and `zero` elsewhere. */
  function MaskedField<V>(mask: seq<seq<bool>>, mesh: Mesh, fieldIn: (int, int) -> V,
                          zero: V): (r: seq<seq<V>>)
    requires mesh.Plane? && SameShape(mask, mesh)
    ensures |r| == |mask|
    ensures forall i :: 0 <= i < |mask| ==>
              |r[i]| == |mask[i]| &&
              forall j :: 0 <= j < |mask[i]| ==>
                r[i][j] == if mask[i][j] then fieldIn(mesh.meshX[i][j], mesh.meshY[i][j]) else zero
  {
    var x, y := mesh.meshX, mesh.meshY;
    seq(|mask|, i requires 0 <= i < |mask| => MaskedRow(mask[i], x[i], y[i], fieldIn, zero))
  }

  /** Masking a sampled field with the mask of block (kx, ky) gives the
      block picture. */
  lemma MaskedPicture2<V>(N: int, s: int, kx: int, ky: int, mask: seq<seq<bool>>, mesh: Mesh,
                          fieldIn: (int, int) -> V, zero: V)
    requires mesh.Plane? && MeshValid(N, mesh) && MaskPicture2(N, s, kx, ky, mask)
    ensures BlockPicture2(N, s, kx, ky, MaskedField(mask, mesh, fieldIn, zero), fieldIn, zero)
  {
    var r, x, y := MaskedField(mask, mesh, fieldIn, zero), mesh.meshX, mesh.meshY;
    forall i | 0 <= i < N
      ensures |r[i]| == N
      ensures forall j :: 0 <= j < N ==>
                r[i][j] == if InSubgrid(kx, s, j) && InSubgrid(ky, s, i)
                           then fieldIn(j - N / 2, i - N / 2) else zero
    {
      var row := MaskedRow(mask[i], x[i], y[i], fieldIn, zero);
      assert r[i] == row;
      forall j | 0 <= j < N
        ensures row[j] == if InSubgrid(kx, s, j) && InSubgrid(ky, s, i)
                          then fieldIn(j - N / 2, i - N / 2) else zero
      {
        assert x[i][j] == j - N / 2 && y[i][j] == i - N / 2;
      }
    }
  }

  /** One row of `fieldSample * mask`: the field where the mask is set and
      `zero` elsewhere. */
  function MaskedRow<V>(mask: seq<bool>, x: seq<int>, y: seq<int>, fieldIn: (int, int) -> V,
                        zero: V): (r: seq<V>)
    requires |x| == |mask| && |y| == |mask|
    ensures |r| == |mask|
    ensures forall j :: 0 <= j < |r| ==> r[j] == if mask[j] then fieldIn(x[j], y[j]) else zero
  {
    seq(|mask|, j requires 0 <= j < |mask| => if mask[j] then fieldIn(x[j], y[j]) else zero)
  }

  /** The 2-D masks tile the grid: cell (i, j) belongs to subgrid
      (j / s, i / s), and to no other. */
  lemma Masks2Partition(ga: GridArray, i: int, j: int)
    requires ArrayValid(ga) && ga.grid.mesh.Plane?
    requires 0 <= i < ga.grid.gridSize && 0 <= j < ga.grid.gridSize
    ensures 0 <= j / ga.subgridSize < ga.numSubgrids
    ensures 0 <= i / ga.subgridSize < ga.numSubgrids
    ensures Mask2(ga, j / ga.subgridSize, i / ga.subgridSize)[i][j]
    ensures forall kx, ky ::
              (0 <= kx < ga.numSubgrids && 0 <= ky < ga.numSubgrids && Mask2(ga, kx, ky)[i][j]) ==>
              kx == j / ga.subgridSize && ky == i / ga.subgridSize
  {
    var n, s := ga.numSubgrids, ga.subgridSize;
    BlockOf(n, s, i);
    BlockOf(n, s, j);
    forall kx, ky | 0 <= kx < n && 0 <= ky < n && Mask2(ga, kx, ky)[i][j]
      ensures kx == j / s && ky == i / s
    {
      assert InSubgrid(kx, s, j) && InSubgrid(ky, s, i);
    }
  }

  /** Row i of the 2-D mask of subgrid (kx, ky) holds s cells when i is in
      block ky and none otherwise. */
  lemma Mask2RowCount(ga: GridArray, kx: int, ky: int, i: int)
    requires ArrayValid(ga) && ga.grid.mesh.Plane?
    requires 0 <= kx < ga.numSubgrids && 0 <= ky < ga.numSubgrids
    requires 0 <= i < ga.grid.gridSize
    ensures CountTrue(Mask2(ga, kx, ky)[i]) ==
              if InSubgrid(ky, ga.subgridSize, i) then ga.subgridSize else 0
  {
    var s := ga.subgridSize;
    var m := Mask2(ga, kx, ky);
    var row := m[i];
    BlockInsideGrid(ga.numSubgrids, s, kx);
    assert forall p :: 0 <= p < |row| ==> row[p] == m[i][p];
    if InSubgrid(ky, s, i) {
      assert forall p :: 0 <= p < |row| ==> (row[p] <==> InSubgrid(kx, s, p));
      CountInterval(row, kx * s, kx * s + s);
    } else {
      forall p | 0 <= p < |row|
        ensures !row[p]
      {
        assert m[i][p] <==> InSubgrid(kx, s, p) && InSubgrid(ky, s, i);
      }
      CountInterval(row, 0, 0);
    }
  }

  /** The 2-D window of every subgrid holds exactly subgridSize² cells. */
  lemma Mask2Count(ga: GridArray, kx: int, ky: int)
    requires ArrayValid(ga) && ga.grid.mesh.Plane?
    requires 0 <= kx < ga.numSubgrids && 0 <= ky < ga.numSubgrids
    ensures CountTrue2(Mask2(ga, kx, ky)) == ga.subgridSize * ga.subgridSize
  {
    var s, N := ga.subgridSize, ga.grid.gridSize;
    var m := Mask2(ga, kx, ky);
    BlockInsideGrid(ga.numSubgrids, s, ky);
    forall i | 0 <= i < N
      ensures CountTrue(m[i]) == if ky * s <= i < ky * s + s then s else 0
    {
      Mask2RowCount(ga, kx, ky, i);
    }
    assert RowCounts(m, ky * s, ky * s + s, s);
    CountRows(m, ky * s, ky * s + s, s);
  }
}
