# Microlens-array simulator: grid and subgrid bookkeeping

This project models the integer, index-level part of a simulator for a
microlens array (MLA) illuminated by an optical field.

- A `Grid` is a square sampling grid with an odd number of locations per
  side, centred on the origin. Its index coordinates come from
  `np.arange`, and in 2-D from `np.meshgrid`.
- A `GridArray` splits such a grid into an odd number of equal, odd-width
  subgrids, one per lenslet, with evenly spaced centres.
- `rect` / `rect2` keep a sampled field inside one subgrid's window and
  zero it elsewhere.
- `fftSubgrid` / `fft2Subgrid` loop over the subgrids. For each one they:
  1. sample the field on the subgrid;
  2. roll the sample so the window lands on the centre of the grid;
  3. Fourier-transform it;
  4. in 1-D, set every transform entry outside the centred window to zero;
  5. build a magnitude and a phase interpolant.

The project has two modules:

- `Grids` (`grids.dfy`) holds the datatypes and pure functions of
  `SimMLA/grids.py`:
  - constructors are functions returning `Ok(value)` or `Raised(exception)`;
  - a size argument is an `Arg`, either `IntArg(n)` or `NonIntArg`, which
    models the `isinstance(·, int)` test. A numpy integer fails that test, so it
    is a `NonIntArg`.
- `FftPack` (`fftpack.dfy`) models `SimMLA/fftpack.py`:
  - `np.roll` and the clip are pure functions;
  - the clip's in-place assignment is a method over an `array`;
  - the two pipelines are methods with `for` loops that append to the
    output lists.
  - Opaque operations are parameters: the transform (ifftshift, fft/fft2,
    fftshift and the energy scale) and the interpolant constructors, which
    receive the subgrid's shift and the spectrum.

The model follows the code where the documentation disagrees with it:

- `fftSubgrid`'s `clip` parameter is documented (SimMLA/fftpack.py:25-29)
  as switching the clip off when False. The body never reads it, so the
  clip at SimMLA/fftpack.py:57 always happens. `FftPack.FftSubgrid` takes
  the flag and ignores it.
- `rect`'s docstring calls the field 2-D, but the code samples it on the
  1-D `x` only.
- A grid's size is documented as any odd positive integer, but a grid of
  one location (and so a grid array of one subgrid of one location)
  raises `ZeroDivisionError` when `Grid.__init__` computes its spacing
  `physicalSize / (gridSize - 1)` (SimMLA/grids.py:60). A zero
  `physicalSize` raises it at SimMLA/grids.py:62. The constructors model
  both as the `ZeroDivision` outcome.

Notation used in the table below:

- `N = numSubgrids * subgridSize` is the number of locations per side.
- `h = floor(subgridSize / 2)`.
- Location `p` has index coordinate `p - floor(N/2)`.
- Block `k` is the run of positions `k*s .. k*s + s - 1`, where
  `s = subgridSize`.

## Model

| member | source | states |
|---|---|---|
| Grids.IsEven | SimMLA/grids.py:4-5 | true exactly when x = 2·(x div 2), false exactly when x = 2·(x div 2) + 1 |
| Grids.IsOddPositive | SimMLA/grids.py:41 | the constructors' size check passes exactly for a Python `int` that is positive and leaves remainder 1 on division by 2 |
| Grids.OddProduct | SimMLA/grids.py:150-161 | the product of two odd integers is odd |
| Grids.NewGrid | SimMLA/grids.py:41-62 | raises ImproperGridSize naming gridSize iff the size is not an odd positive int (no other size is ever named); raises ImproperDimension iff the size is fine and dim is neither 1 nor 2; raises ZeroDivision iff both checks pass and gridSize is 1 or physicalSize is 0 (the conversion factors divide by gridSize - 1 and physicalSize); otherwise returns a valid grid of that size with the given physical parameters and a line mesh iff dim = 1, a plane mesh iff dim = 2 |
| Grids.Arange | SimMLA/grids.py:49 | `np.arange(lo, hi)`: hi - lo entries (none if hi ≤ lo), entry i = lo + i |
| Grids.Coords | SimMLA/grids.py:49 | n entries, entry i = i - floor(n/2) |
| Grids.CoordsSymmetric | SimMLA/grids.py:49 | coordinates run from -(n-1)/2 to (n-1)/2, the middle one is 0, and coords[i] = -coords[n-1-i] |
| Grids.MeshX | SimMLA/grids.py:53 | first meshgrid output: \|b\| rows, each equal to a (x varies along a row) |
| Grids.MeshY | SimMLA/grids.py:53 | second meshgrid output: \|b\| rows of \|a\| entries, row i constant b[i] (y varies down a column) |
| Grids.ValidMeshIsMeshgrid | SimMLA/grids.py:49-55 | the mesh of every valid grid is exactly the coords (1-D) or meshgrid(coords, coords) (2-D) |
| Grids.SubgridCenters | SimMLA/grids.py:164 | numSubgrids entries, entry k = subgridSize·(k - floor(numSubgrids/2)) |
| Grids.SubgridCentersShape | SimMLA/grids.py:164 | the middle centre is 0, consecutive centres differ by subgridSize, and the centres mirror about 0 |
| Grids.ValidCentres | SimMLA/grids.py:164 | the centres stored in a valid grid array are those the constructor computes |
| Grids.ParentSizeCheckPasses | SimMLA/grids.py:160-161 | numSubgrids·subgridSize passes the grid's size check whenever both factors passed theirs |
| Grids.NewGridArray | SimMLA/grids.py:150-165 | raises ImproperGridSize naming numSubgrids iff numSubgrids is not an odd positive int, naming subgridSize iff numSubgrids passes and subgridSize does not, and never naming gridSize (the parent's size check cannot fire); raises ImproperDimension iff both are fine and dim is not 1 or 2; raises ZeroDivision iff those checks pass and either both sizes are 1 or physicalSize is 0; otherwise a valid array with those sizes, the given physical parameters, mesh kind per dim, and subgridx/subgridy the meshgrid of the centres |
| Grids.UnitProduct | SimMLA/grids.py:160 | numSubgrids·subgridSize is 1 exactly when both sizes are 1, the only way the grid array reaches the division by gridSize - 1 |
| Grids.SubgridIndex | SimMLA/grids.py:183 | Python indexing of the centres: any index in [-n, n) selects the entry in [0, n) congruent to it modulo n, the index itself when it is non-negative |
| Grids.InWindow | SimMLA/grids.py:190 | the mask test holds exactly when the coordinate is at most h away from the centre |
| Grids.HalfProduct | SimMLA/grids.py:189 | floor(n·s/2) = s·floor(n/2) + floor(s/2) for odd n, s |
| Grids.WindowPositions | SimMLA/grids.py:189-190 | location p is within h of centre k iff p lies in block k |
| Grids.WindowIsBlock | SimMLA/grids.py:189-190 | the mask window of subgrid k, read on positions, is exactly block k |
| Grids.BlockInsideGrid | SimMLA/grids.py:127-128 | every block lies within positions 0 .. N-1 |
| Grids.WindowInsideGrid | SimMLA/grids.py:189-190 | each window's extreme coordinates lie within [-floor(N/2), floor(N/2)] |
| Grids.Mask | SimMLA/grids.py:189-190 | N booleans, entry p set iff p is in the block of the (Python-indexed) subgrid |
| Grids.Rect | SimMLA/grids.py:183-193 | N samples: the field at p's coordinate where p is in the subgrid's block, zero elsewhere |
| Grids.BlockOf | SimMLA/grids.py:127-128 | position p lies in block p div s, which is in range, and in no other block |
| Grids.MasksPartition | SimMLA/grids.py:189-190 | every location is in the mask of subgrid p div s and of no other: the 1-D windows tile the grid |
| Grids.MasksDisjoint | SimMLA/grids.py:127-128 | masks of distinct subgrids never share a location |
| Grids.CountTrue | SimMLA/grids.py:190 | the count of set entries is at most the length |
| Grids.CountInterval | SimMLA/grids.py:190 | a mask set exactly on positions a .. b-1 has b - a set entries |
| Grids.RowCountsTail | SimMLA/grids.py:222 | dropping the first row of a mask shifts its counted rows down by one and the first row holds c or 0 |
| Grids.CountRows | SimMLA/grids.py:222 | a 2-D mask whose rows a .. b-1 hold c set cells each, the others none, holds (b - a)·c |
| Grids.MaskCount | SimMLA/grids.py:189-190 | each 1-D window holds exactly subgridSize locations |
| Grids.Mask2 | SimMLA/grids.py:219-222 | N×N booleans, cell (i, j) set iff column j is in block kx and row i in block ky: the conjunction of the x and y windows |
| Grids.Rect2 | SimMLA/grids.py:213-225 | N×N samples: the field at (x, y) = (j - floor(N/2), i - floor(N/2)) inside the square window, zero elsewhere |
| Grids.MaskedField | SimMLA/grids.py:225 | `fieldSample * mask` in 2-D, on a mesh of the mask's shape: one row per mask row, and cell (i, j) holds the field at (x[i][j], y[i][j]) where the mask is set, zero elsewhere |
| Grids.MaskedRow | SimMLA/grids.py:225 | one row of `fieldSample * mask`: field where the mask is set, zero elsewhere |
| Grids.MaskedPicture2 | SimMLA/grids.py:216-225 | masking the sampled 2-D field with the block mask gives the field on the block square and zero elsewhere |
| Grids.Masks2Partition | SimMLA/grids.py:219-222 | every cell (i, j) is in the mask of subgrid (j div s, i div s) and of no other: the n² windows tile the 2-D grid |
| Grids.Mask2RowCount | SimMLA/grids.py:219-222 | row i of a 2-D mask holds s cells if i is in block ky, none otherwise |
| Grids.Mask2Count | SimMLA/grids.py:219-222 | each 2-D window holds exactly subgridSize² cells |
| FftPack.Roll | SimMLA/fftpack.py:49 | `np.roll` keeps the length |
| FftPack.RollBackPosition | SimMLA/fftpack.py:49 | position p shifted by k mod N and back by k mod N is p again |
| FftPack.RollInverse | SimMLA/fftpack.py:49 | rolling by -shift undoes rolling by shift |
| FftPack.RollColumns | SimMLA/fftpack.py:115 | rolling along axis 1 keeps the shape |
| FftPack.CentreFacts | SimMLA/fftpack.py:48 | where centre k and block k sit: floor(N/2) = s·floor(n/2) + h, and centre k = k·s - s·floor(n/2) |
| FftPack.WindowToBlock | SimMLA/fftpack.py:49 | a centred-window position moves into the block with no wrap-around |
| FftPack.BlockFromWindow | SimMLA/fftpack.py:49 | a position the roll sends into the block lies in the centred window |
| FftPack.CentredPosition | SimMLA/fftpack.py:48-49 | after rolling by -centre_k, position p reads from block k iff p's coordinate is in [-h, h], and then without wrap-around |
| FftPack.CentredSample | SimMLA/fftpack.py:48-49 | the centred picture has N entries |
| FftPack.RollCentresBlock | SimMLA/fftpack.py:48-49 | rolling any picture of block k by -centre_k gives the centred picture |
| FftPack.RollCentresSubgrid | SimMLA/fftpack.py:42-49 | rolling `rect(f, k)` by -centre_k yields f at (coordinate + centre_k) on [-h, h] and zero elsewhere: the support moves onto the centred window |
| FftPack.CentredSample2 | SimMLA/fftpack.py:114-115 | the centred 2-D picture is N×N |
| FftPack.RollBackAt | SimMLA/fftpack.py:115 | after rolling columns by -ux and rows by -uy, cell (i, j) holds the input's cell ((i+uy) mod N, (j+ux) mod N) |
| FftPack.RollCentresCell | SimMLA/fftpack.py:114-115 | one cell of the 2-D centring roll holds the field on the centred square, zero elsewhere |
| FftPack.RollCentresBlock2 | SimMLA/fftpack.py:114-115 | rolling any picture of block (kx, ky) by the two centres gives the centred 2-D picture |
| FftPack.RollCentresSubgrid2 | SimMLA/fftpack.py:111-115 | rolling `rect2(f, kx, ky)` by -centre along axis 1 and then along axis 0 moves its square support onto [-h, h]×[-h, h] |
| FftPack.Clip | SimMLA/fftpack.py:57 | the clip keeps the length |
| FftPack.ClipInPlace | SimMLA/fftpack.py:57 | the in-place assignment leaves the array equal to the clip of its old contents: entries with coordinate outside [-h, h] are zero, all others unchanged |
| FftPack.ClipIdempotent | SimMLA/fftpack.py:57 | clipping twice equals clipping once |
| FftPack.ClipKeepsMiddleBlock | SimMLA/fftpack.py:57 | the clip keeps exactly the middle subgrid's block and zeroes the rest |
| FftPack.SubgridSpectrum | SimMLA/fftpack.py:42-57 | the clipped spectrum of subgrid k: the transform of the centred sample on the middle block, zero elsewhere |
| FftPack.FftSubgrid | SimMLA/fftpack.py:37-81 | returns numSubgrids magnitude and numSubgrids phase interpolants; entry k is built from centre_k and subgrid k's clipped spectrum, whatever the clip flag |
| FftPack.SubgridSpectrum2 | SimMLA/fftpack.py:111-120 | what the 2-D pipeline hands to the interpolants for subgrid (kx, ky) is the transform of `rect2`'s sample rolled by minus both centres, defined independently as the transform of the centred picture |
| FftPack.FlatIndex | SimMLA/fftpack.py:107-108 | subgrid (x, y) lands at list position x·n + y, which is in range and decodes back to (x, y) |
| FftPack.Collected2Extend | SimMLA/fftpack.py:136-137 | appending the pair of subgrid (x, y) at position x·n + y keeps every collected entry in place |
| FftPack.Collected2Step | SimMLA/fftpack.py:111-137 | appending the pair built from the transform of subgrid (x, y)'s `rect2` sample rolled by minus both centres, at position x·n + y, keeps every collected entry in place |
| FftPack.FftSubgridColumn | SimMLA/fftpack.py:108-137 | the inner loop over subgridY: raises iff wavelength or focalLength is 0; otherwise appends column x's n pairs after the x·n collected ones, each in its place |
| FftPack.FftSubgrid2 | SimMLA/fftpack.py:104-139 | raises (ZeroDivisionError in the scale factor, lines 118-119) iff wavelength or focalLength is 0; otherwise returns numSubgrids² interpolant pairs; entry k comes from subgrid (k div n, k mod n) (x outer, y inner), built from both centres and the transform of its centred sample |

## Left out

- The Fourier transform is not modelled. `ifftshift`, `fft`/`fft2`,
  `fftshift` and the energy-scaling factor (SimMLA/fftpack.py:52-54,
  117-120) are floating-point library calls over complex arrays. They
  appear as one opaque `transform` parameter.
- The interpolant constructors are not modelled. `interp1d` and
  `RectBivariateSpline`, together with the `np.abs` / `np.angle` and
  `np.unique` / `np.sort` preparation (SimMLA/fftpack.py:62-79, 126-137),
  are library objects over floats. Opaque `magInterp` / `phaseInterp`
  parameters receive the subgrid's shift and the spectrum.
- The physical and Fourier unit conversions are left out:
  `_gridToPhys`, `px`, `py`, `X`, `Y`, `pX`, `pY`, `pfX`, `pfY`
  (SimMLA/grids.py:60-122), and the shifted `newGridX`/`newGridY` axes
  (SimMLA/fftpack.py:60, 123-124). They are floating-point scalings of the
  index coordinates. Only the divisions by zero they can raise are
  modelled.
- `fftPropagate` (SimMLA/fftpack.py:141-174) is left out. It is
  complex-valued numerics, including the zeroing of `kz.imag` at line 167.
  It is commented out of the pipeline.
- SimMLA/fields.py and setup.py are not part of this model. They are a
  floating-point field generator and packaging.
- Grids.Rect, Grids.Rect2: the field is a function of the integer index
  coordinate, not of the physical coordinate `px` it is called with in
  the source. Scaling by `_gridToPhys` is left out with the other unit
  conversions. `fieldSample * mask` becomes "field where the mask is set,
  `zero` elsewhere", which ignores NaN·0.
- Grids.Rect: only the 1-D grid is modelled, as a precondition. On a
  2-D grid (the default dimension) `rect` broadcasts a 2-D mask, and
  `fftSubgrid` calls it there before failing later.
- Grids.Rect2, Grids.Mask2: only the 2-D grid is modelled, as a
  precondition. On a 1-D grid the source raises `AttributeError`, because
  `py` reads `y` (SimMLA/grids.py:216), which only dim 2 sets.
- FftPack.FftSubgrid: only the 1-D grid is modelled, as a precondition. On
  a 2-D grid the source rolls the flattened N×N sample
  (SimMLA/fftpack.py:49) and then fails when `interp1d` is given a 2-D
  axis (SimMLA/fftpack.py:60, 70). That failure path is not modelled.
- FftPack.FftSubgrid2: only the 2-D grid is modelled, as a precondition.
  On a 1-D grid the source fails in `rect2` with `AttributeError`.
- Grids.SubgridIndex: an index outside [-numSubgrids, numSubgrids) raises
  `IndexError` in the source. Here it is excluded by a precondition.
- Grids.NewGrid: `dim` is an integer. A non-integer value that equals 1
  or 2 (1.0, True) is not distinguished.
- Grids.NewGrid, Grids.NewGridArray: the source's defaults are not
  modelled. `dim` defaults to 2 (SimMLA/grids.py:15, 131), and here it is
  always passed. Likewise `fftSubgrid`'s `clip` defaults to True
  (SimMLA/fftpack.py:11) and is an explicit parameter here.
- Grids.NewGrid, Grids.NewGridArray: `physicalSize` is taken as a Python
  number, for which division by zero raises. A numpy float would give
  `inf` with a warning instead, and that is not modelled.
- FftPack.FftSubgrid: the transform is required to preserve length.
  `fftshift(fft(ifftshift(·)))` does, and the clip's boolean index needs
  it. The `int(...)` cast of a centre is the identity, because centres are
  whole numbers.
- FftPack.FftSubgrid2: nothing is stated about the transform's shape,
  because there is no clip in 2-D.
- FftPack.FftSubgrid2: when it raises, the lists it returns are the
  partial ones built so far, where the source returns nothing. A product
  `wavelength * focalLength` of two nonzero floats that underflows to 0
  is not modelled. That case also raises in the source.
- FftPack.FftSubgrid: a zero wavelength or focal length does not raise.
  The 1-D scale factor divides by `np.sqrt(...)`, a numpy float, so the
  result is `inf` with a warning (SimMLA/fftpack.py:52-53). The scaling
  is inside the opaque transform, as in the first item.
- Grids.MaskedField: requires the mesh to have the mask's shape. The
  source's arrays always do, and numpy would raise on a mismatch.
