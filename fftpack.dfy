/** The index-level skeleton of the per-subgrid Fourier pipeline: for each
    subgrid, sample the field on that subgrid's window, roll the sample so
    the window lands on the centre of the grid, transform it, clip the 1-D
    transform to the centred window, and build one magnitude and one phase
    interpolant; the results are collected in loop order.

    The transform (ifftshift, fft/fft2, fftshift and the energy-conserving
    scale factor) and the interpolant constructors (interp1d,
    RectBivariateSpline, applied to |F| and angle(F) on the shifted physical
    axes) are floating-point library calls; they are parameters here. */
module FftPack {
  import opened Grids

  // ---------------------------------------------------------------------
  // Roll

  /** `np.roll(a, shift)` on a 1-D sequence (or along axis 0): the entry at
      position p moves to position (p + shift) mod |a|. */
  function Roll<T>(a: seq<T>, shift: int): (r: seq<T>)
    ensures |r| == |a|
  {
    seq(|a|, p requires 0 <= p < |a| => a[(p - shift) % |a|])
  }

  /** Position arithmetic of a roll followed by the opposite roll. */
  lemma RollBackPosition(p: int, shift: int, N: int)
    requires N > 0 && 0 <= p < N
    ensures ((p + shift) % N - shift) % N == p
  {
    var q := (p + shift) / N;
    assert (p + shift) % N - shift == p - q * N;
    assert p - q * N == (-q) * N + p;
    DivModUnique((p + shift) % N - shift, N, -q, p);
  }

  /** Rolling back by the opposite shift restores the sequence. */
  lemma RollInverse<T>(a: seq<T>, shift: int)
    ensures Roll(Roll(a, shift), -shift) == a
  {
    var N, r := |a|, Roll(a, shift);
    var b := Roll(r, -shift);
    forall p | 0 <= p < N
      ensures b[p] == a[p]
    {
      var q := (p + shift) % N;
      assert b[p] == r[q] by {
        assert p - -shift == p + shift;
      }
      assert r[q] == a[(q - shift) % N];
      RollBackPosition(p, shift, N);
    }
  }

  /** `np.roll(a, shift, axis=1)`: every row rolled by shift. */
  function RollColumns<T>(a: seq<seq<T>>, shift: int): (r: seq<seq<T>>)
    ensures |r| == |a|
    ensures forall i :: 0 <= i < |a| ==> |r[i]| == |a[i]|
  {
    seq(|a|, i requires 0 <= i < |a| => Roll(a[i], shift))
  }

  // ---------------------------------------------------------------------
  // Centring a subgrid

  /** Where the centre of subgrid k and its block sit in a grid of n
      subgrids of odd side s: with m = n / 2 and h = s / 2, the grid is
      2 (s m + h) + 1 wide, its middle position is s m + h, and the centre
      s (k - m) is k s - s m. */
  lemma CentreFacts(n: int, s: int, k: int)
    requires n > 0 && !IsEven(n) && s > 0 && !IsEven(s) && 0 <= k < n
    ensures (n * s) / 2 == s * (n / 2) + s / 2 && s == 2 * (s / 2) + 1
    ensures n * s == 2 * (s * (n / 2) + s / 2) + 1
    ensures s * (k - n / 2) == k * s - s * (n / 2)
    ensures 0 <= k * s && k * s + s <= n * s && 0 <= s * (n / 2)
  {
    HalfProduct(n, s);
    OddHalf(s);
    OddHalf(n);
    BlockInsideGrid(n, s, k);
    MulLeq(0, n / 2, s);
    DivModUnique(n * s, 2, s * (n / 2) + s / 2, 1);
  }

  /** The centring roll on a grid of N = 2 (M + h) + 1 locations, whose
      block of interest spans K .. K + s - 1 and whose centred window spans
      M .. M + 2h (c = K - M is the block's centre): a position of the
      window moves into the block without wrap-around. */
  lemma WindowToBlock(N: int, s: int, h: int, M: int, K: int, c: int, p: int)
    requires s == 2 * h + 1 && N == 2 * (M + h) + 1 && c == K - M
    requires 0 <= M && 0 <= K && K + s <= N
    requires M <= p <= M + 2 * h
    ensures (p + c) % N == p + c && K <= p + c < K + s
  {
    DivModUnique(p + c, N, 0, p + c);
  }

  /** Conversely, a position of the grid that the roll sends into the block
      lies in the centred window. */
  lemma BlockFromWindow(N: int, s: int, h: int, M: int, K: int, c: int, p: int)
    requires s == 2 * h + 1 && N == 2 * (M + h) + 1 && c == K - M
    requires 0 <= M && 0 <= K && K + s <= N && 0 <= p < N
    requires K <= (p + c) % N < K + s
    ensures M <= p <= M + 2 * h
  {
    var q, t := (p + c) % N, (p + c) / N;
    assert p - (q - c) == t * N;
    MultipleInOpenInterval(t, N);
  }

  /** The arithmetic of the centring roll. Rolling by minus the centre c of
      subgrid k sends position p to position (p + c) mod N; that position is
      in block k exactly when p's coordinate lies in [-h, h], and then no
      wrap-around happens. */
  lemma CentredPosition(n: int, s: int, k: int, p: int)
    requires n > 0 && !IsEven(n) && s > 0 && !IsEven(s)
    requires 0 <= k < n && 0 <= p < n * s
    ensures InSubgrid(k, s, (p + s * (k - n / 2)) % (n * s)) <==>
            InWindow(0, s / 2, p - (n * s) / 2)
    ensures InWindow(0, s / 2, p - (n * s) / 2) ==>
            (p + s * (k - n / 2)) % (n * s) == p + s * (k - n / 2)
  {
    var N, c, M, K := n * s, s * (k - n / 2), s * (n / 2), k * s;
    CentreFacts(n, s, k);
    if InWindow(0, s / 2, p - N / 2) {
      WindowToBlock(N, s, s / 2, M, K, c, p);
    } else if InSubgrid(k, s, (p + c) % N) {
      BlockFromWindow(N, s, s / 2, M, K, c, p);
    }
  }

  /** The reference picture of a centred 1-D sample over N locations: the
      field read at coordinate x + c on the centred window [-s/2, s/2], and
      `zero` elsewhere (c is the centre of the subgrid being centred). */
  function CentredSample<V>(N: nat, s: int, c: int, fieldIn: int -> V, zero: V): (r: seq<V>)
    ensures |r| == N
  {
    seq(N, p => if InWindow(0, s / 2, p - N / 2) then fieldIn(p - N / 2 + c) else zero)
  }

  /** The 1-D centring roll on plain sizes: rolling the block picture of
      subgrid k by minus its centre gives the centred picture. */
  lemma RollCentresBlock<V>(n: int, s: int, N: nat, k: int, c: int,
                            sample: seq<V>, fieldIn: int -> V, zero: V)
    requires n > 0 && !IsEven(n) && s > 0 && !IsEven(s) && N == n * s
    requires 0 <= k < n && c == s * (k - n / 2)
    requires BlockPicture(N, s, k, sample, fieldIn, zero)
    ensures Roll(sample, -c) == CentredSample(N, s, c, fieldIn, zero)
  {
    var rolled, centred := Roll(sample, -c), CentredSample(N, s, c, fieldIn, zero);
    forall p | 0 <= p < N
      ensures rolled[p] == centred[p]
    {
      CentredPosition(n, s, k, p);
      assert rolled[p] == sample[(p + c) % N] by {
        assert p - -c == p + c;
      }
    }
  }

  /** Rolling the masked sample of subgrid k by minus its centre moves its
      support [center - h, center + h] onto [-h, h], with no wrap-around. */
  lemma RollCentresSubgrid<V>(ga: GridArray, fieldIn: int -> V, k: int, zero: V)
    requires ArrayValid(ga) && ga.grid.mesh.Line?
    requires 0 <= k < ga.numSubgrids
    ensures Roll(Rect(ga, fieldIn, k, zero), -ga.subgridCenters[k]) ==
            CentredSample(ga.grid.gridSize, ga.subgridSize, ga.subgridCenters[k], fieldIn, zero)
  {
    assert SubgridIndex(ga, k) == k;
    RollCentresBlock(ga.numSubgrids, ga.subgridSize, ga.grid.gridSize, k, ga.subgridCenters[k],
                     Rect(ga, fieldIn, k, zero), fieldIn, zero);
  }

  /** The reference picture of a centred 2-D sample over N x N cells: the
      field read at (x + cx, y + cy) on the centred square
      [-s/2, s/2] x [-s/2, s/2], and `zero` elsewhere. */
  function CentredSample2<V>(N: nat, s: int, cx: int, cy: int, fieldIn: (int, int) -> V,
                             zero: V): (r: seq<seq<V>>)
    ensures |r| == N && forall i :: 0 <= i < N ==> |r[i]| == N
  {
    seq(N, i => seq(N, j => if InWindow(0, s / 2, j - N / 2) && InWindow(0, s / 2, i - N / 2)
                            then fieldIn(j - N / 2 + cx, i - N / 2 + cy) else zero))
  }

  /** Entry (i, j) after rolling columns by -ux and rows by -uy. */
  lemma RollBackAt<T>(a: seq<seq<T>>, ux: int, uy: int, i: int, j: int)
    requires forall r :: 0 <= r < |a| ==> |a[r]| == |a|
    requires 0 <= i < |a| && 0 <= j < |a|
    ensures Roll(RollColumns(a, -ux), -uy)[i][j] == a[(i + uy) % |a|][(j + ux) % |a|]
  {
    var b := RollColumns(a, -ux);
    var i' := (i + uy) % |a|;
    assert i - -uy == i + uy && j - -ux == j + ux;
    assert Roll(b, -uy)[i] == b[i'] == Roll(a[i'], -ux);
  }

  /** One cell of the 2-D centring roll, on plain sizes: a sample that is
      the field on block (kx, ky) and `zero` elsewhere, rolled by minus the
      two centres, is the field on the centred square. */
  lemma RollCentresCell<V>(n: int, s: int, N: nat, kx: int, ky: int, cx: int, cy: int,
                           sample: seq<seq<V>>, fieldIn: (int, int) -> V, zero: V,
                           i: int, j: int)
    requires n > 0 && !IsEven(n) && s > 0 && !IsEven(s) && N == n * s
    requires 0 <= kx < n && 0 <= ky < n && cx == s * (kx - n / 2) && cy == s * (ky - n / 2)
    requires |sample| == N && forall r :: 0 <= r < |sample| ==> |sample[r]| == N
    requires forall a, b :: 0 <= a < N && 0 <= b < N ==>
               sample[a][b] == if InSubgrid(kx, s, b) && InSubgrid(ky, s, a)
                               then fieldIn(b - N / 2, a - N / 2) else zero
    requires 0 <= i < N && 0 <= j < N
    ensures Roll(RollColumns(sample, -cx), -cy)[i][j] ==
            if InWindow(0, s / 2, j - N / 2) && InWindow(0, s / 2, i - N / 2)
            then fieldIn(j - N / 2 + cx, i - N / 2 + cy)
            else zero
  {
    RollBackAt(sample, cx, cy, i, j);
    CentredPosition(n, s, kx, j);
    CentredPosition(n, s, ky, i);
  }

  /** The 2-D centring roll on plain sizes: rolling the block picture of
      subgrid (kx, ky) by minus the two centres gives the centred picture. */
  lemma RollCentresBlock2<V>(n: int, s: int, N: nat, kx: int, ky: int, cx: int, cy: int,
                             sample: seq<seq<V>>, fieldIn: (int, int) -> V, zero: V)
    requires n > 0 && !IsEven(n) && s > 0 && !IsEven(s) && N == n * s
    requires 0 <= kx < n && 0 <= ky < n && cx == s * (kx - n / 2) && cy == s * (ky - n / 2)
    requires BlockPicture2(N, s, kx, ky, sample, fieldIn, zero)
    ensures Roll(RollColumns(sample, -cx), -cy) == CentredSample2(N, s, cx, cy, fieldIn, zero)
  {
    var rolled := Roll(RollColumns(sample, -cx), -cy);
    var centred := CentredSample2(N, s, cx, cy, fieldIn, zero);
    forall i | 0 <= i < N
      ensures rolled[i] == centred[i]
    {
      forall j | 0 <= j < N
        ensures rolled[i][j] == centred[i][j]
      {
        RollCentresCell(n, s, N, kx, ky, cx, cy, sample, fieldIn, zero, i, j);
      }
    }
  }

  /** The 2-D roll of the pipeline (columns by minus center_kx along axis 1,
      then rows by minus center_ky along axis 0) moves the square support of
      subgrid (kx, ky) onto the centred square. */
  lemma RollCentresSubgrid2<V>(ga: GridArray, fieldIn: (int, int) -> V, kx: int, ky: int,
                               zero: V)
    requires ArrayValid(ga) && ga.grid.mesh.Plane?
    requires 0 <= kx < ga.numSubgrids && 0 <= ky < ga.numSubgrids
    ensures Roll(RollColumns(Rect2(ga, fieldIn, kx, ky, zero), -ga.subgridCenters[kx]),
                 -ga.subgridCenters[ky]) ==
            CentredSample2(ga.grid.gridSize, ga.subgridSize, ga.subgridCenters[kx],
                           ga.subgridCenters[ky], fieldIn, zero)
  {
    var n, s, N := ga.numSubgrids, ga.subgridSize, ga.grid.gridSize;
    var cx, cy := ga.subgridCenters[kx], ga.subgridCenters[ky];
    var sample := Rect2(ga, fieldIn, kx, ky, zero);
    assert SubgridIndex(ga, kx) == kx && SubgridIndex(ga, ky) == ky;
    assert BlockPicture2(N, s, kx, ky, sample, fieldIn, zero);
    RollCentresBlock2(n, s, N, kx, ky, cx, cy, sample, fieldIn, zero);
  }

  // ---------------------------------------------------------------------
  // Clip

  /** Line 57 of the 1-D pipeline: every entry whose coordinate lies outside
      [-half, half] is set to `zero`; the others are kept. */
  function Clip<W>(F: seq<W>, x: seq<int>, half: int, zero: W): (r: seq<W>)
    requires |F| == |x|
    ensures |r| == |F|
  {
    seq(|F|, p requires 0 <= p < |F| => if x[p] < -half || x[p] > half then zero else F[p])
  }

  /** Line 57 as the source performs it: the entries selected by the
      coordinate test are overwritten with `zero` in place, the others are
      left as they were. */
  method ClipInPlace<W>(F: array<W>, x: seq<int>, half: int, zero: W)
    requires F.Length == |x|
    modifies F
    ensures F[..] == Clip(old(F[..]), x, half, zero)
  {
    for p := 0 to F.Length
      invariant forall q :: 0 <= q < p ==> F[q] == Clip(old(F[..]), x, half, zero)[q]
      invariant forall q :: p <= q < F.Length ==> F[q] == old(F[q])
    {
      if x[p] < -half || x[p] > half {
        F[p] := zero;
      }
    }
  }

  /** Clipping twice is clipping once. */
  lemma ClipIdempotent<W>(F: seq<W>, x: seq<int>, half: int, zero: W)
    requires |F| == |x|
    ensures Clip(Clip(F, x, half, zero), x, half, zero) == Clip(F, x, half, zero)
  {
  }

  /** On a grid array, the clip keeps exactly the block of the middle
      subgrid (whose centre is 0): s consecutive positions. */
  lemma ClipKeepsMiddleBlock<W>(ga: GridArray, F: seq<W>, zero: W, p: int)
    requires ArrayValid(ga) && ga.grid.mesh.Line?
    requires |F| == ga.grid.gridSize && 0 <= p < |F|
    ensures Clip(F, ga.grid.mesh.x, ga.subgridSize / 2, zero)[p] ==
            if InSubgrid(ga.numSubgrids / 2, ga.subgridSize, p) then F[p] else zero
  {
    var n, s := ga.numSubgrids, ga.subgridSize;
    OddHalf(n);
    WindowPositions(n, s, n / 2, p);
    assert s * (n / 2 - n / 2) == 0;
  }

  // ---------------------------------------------------------------------
  // The per-subgrid pipelines

  /** What the 1-D pipeline hands to the interpolants for subgrid k: the
      transform of the centred sample, clipped to the centred window. It is
      `zero` outside the middle block and the transform inside it. */
  function SubgridSpectrum<V, W>(ga: GridArray, uIn: int -> V, k: int, zero: V, zeroW: W,
                                 transform: seq<V> -> seq<W>): (F: seq<W>)
    requires ArrayValid(ga) && ga.grid.mesh.Line?
    requires 0 <= k < ga.numSubgrids
    requires |transform(CentredSample(ga.grid.gridSize, ga.subgridSize, ga.subgridCenters[k],
                                      uIn, zero))| == ga.grid.gridSize
    ensures |F| == ga.grid.gridSize
    ensures var G := transform(CentredSample(ga.grid.gridSize, ga.subgridSize,
                                             ga.subgridCenters[k], uIn, zero));
            forall p :: 0 <= p < |F| ==>
              F[p] == if InSubgrid(ga.numSubgrids / 2, ga.subgridSize, p) then G[p] else zeroW
  {
    var G := transform(CentredSample(ga.grid.gridSize, ga.subgridSize, ga.subgridCenters[k],
                                     uIn, zero));
    var F := Clip(G, ga.grid.mesh.x, ga.subgridSize / 2, zeroW);
    assert forall p :: 0 <= p < |F| ==>
             F[p] == if InSubgrid(ga.numSubgrids / 2, ga.subgridSize, p) then G[p] else zeroW by {
      forall p | 0 <= p < |F|
        ensures F[p] == if InSubgrid(ga.numSubgrids / 2, ga.subgridSize, p) then G[p] else zeroW
      {
        ClipKeepsMiddleBlock(ga, G, zeroW, p);
      }
    }
    F
  }

  /** The first |mags| interpolant pairs of the 1-D pipeline are in place:
      entry k belongs to subgrid k. */
  ghost predicate Collected<V(!new), W, M, P>(ga: GridArray, uIn: int -> V, zero: V, zeroW: W,
                                        transform: seq<V> -> seq<W>,
                                        magInterp: (int, seq<W>) -> M,
                                        phaseInterp: (int, seq<W>) -> P,
                                        mags: seq<M>, phases: seq<P>)
    requires ArrayValid(ga) && ga.grid.mesh.Line?
    requires forall v: seq<V> :: |transform(v)| == |v|
  {
    |mags| == |phases| <= ga.numSubgrids &&
    forall k :: 0 <= k < |mags| ==>
      mags[k] == magInterp(ga.subgridCenters[k],
                           SubgridSpectrum(ga, uIn, k, zero, zeroW, transform)) &&
      phases[k] == phaseInterp(ga.subgridCenters[k],
                               SubgridSpectrum(ga, uIn, k, zero, zeroW, transform))
  }

  /** `fftSubgrid`: one (magnitude, phase) interpolant pair per subgrid, in
      subgrid order, entry k built from subgrid k's clipped spectrum and its
      centre (the shift of the interpolation axis). The `clip` flag is never
      read: the clip always happens. */
  method FftSubgrid<V(!new), W, M, P>(uIn: int -> V, ga: GridArray, clip: bool, zero: V, zeroW: W,
                                transform: seq<V> -> seq<W>,
                                magInterp: (int, seq<W>) -> M,
                                phaseInterp: (int, seq<W>) -> P)
    returns (interpMag: seq<M>, interpPhase: seq<P>)
    requires ArrayValid(ga) && ga.grid.mesh.Line?
    requires forall v: seq<V> :: |transform(v)| == |v|
    ensures |interpMag| == ga.numSubgrids && |interpPhase| == ga.numSubgrids
    ensures forall k :: 0 <= k < ga.numSubgrids ==>
              interpMag[k] == magInterp(ga.subgridCenters[k],
                                        SubgridSpectrum(ga, uIn, k, zero, zeroW, transform))
    ensures forall k :: 0 <= k < ga.numSubgrids ==>
              interpPhase[k] == phaseInterp(ga.subgridCenters[k],
                                            SubgridSpectrum(ga, uIn, k, zero, zeroW, transform))
  {
    interpMag, interpPhase := [], [];
    for subgridX := 0 to ga.numSubgrids
      invariant |interpMag| == subgridX
      invariant Collected(ga, uIn, zero, zeroW, transform, magInterp, phaseInterp,
                          interpMag, interpPhase)
    {
      var fieldSample := Rect(ga, uIn, subgridX, zero);
      var shiftX := ga.subgridCenters[subgridX];
      fieldSample := Roll(fieldSample, -shiftX);
      var G := transform(fieldSample);
      var buffer := new W[|G|](p requires 0 <= p < |G| => G[p]);
      assert buffer[..] == G;
      ClipInPlace(buffer, ga.grid.mesh.x, ga.subgridSize / 2, zeroW);
      var F := buffer[..];
      RollCentresSubgrid(ga, uIn, subgridX, zero);
      assert F == SubgridSpectrum(ga, uIn, subgridX, zero, zeroW, transform);
      interpMag := interpMag + [magInterp(shiftX, F)];
      interpPhase := interpPhase + [phaseInterp(shiftX, F)];
    }
  }

  /** Position k of the 2-D output lists belongs to subgrid (k / n, k % n);
      subgrid (x, y) sits at position x * n + y. */
  lemma FlatIndex(n: int, x: int, y: int)
    requires 0 <= x < n && 0 <= y < n
    ensures 0 <= x * n + y < n * n
    ensures (x * n + y) / n == x && (x * n + y) % n == y
  {
    MulLeq(x + 1, n, n);
    MulLeq(0, x, n);
    DivModUnique(x * n + y, n, x, y);
  }

  /** What the 2-D pipeline hands to the interpolants for subgrid (kx, ky):
      the transform of the centred sample (no clip in 2-D). It is the
      transform of `rect2`'s sample rolled by minus the two centres. */
  function SubgridSpectrum2<V, W>(ga: GridArray, uIn: (int, int) -> V, kx: int, ky: int,
                                  zero: V, transform: seq<seq<V>> -> seq<seq<W>>): (F: seq<seq<W>>)
    requires ArrayValid(ga) && ga.grid.mesh.Plane?
    requires 0 <= kx < ga.numSubgrids && 0 <= ky < ga.numSubgrids
    ensures F == transform(Roll(RollColumns(Rect2(ga, uIn, kx, ky, zero), -ga.subgridCenters[kx]),
                                -ga.subgridCenters[ky]))
  {
    RollCentresSubgrid2(ga, uIn, kx, ky, zero);
    transform(CentredSample2(ga.grid.gridSize, ga.subgridSize, ga.subgridCenters[kx],
                           ga.subgridCenters[ky], uIn, zero))
  }

  /** The first |mags| interpolant pairs of the 2-D pipeline are in place:
      entry k belongs to subgrid (k / n, k % n). */
  ghost predicate Collected2<V, W, M, P>(ga: GridArray, uIn: (int, int) -> V, zero: V,
                                         transform: seq<seq<V>> -> seq<seq<W>>,
                                         magInterp: (int, int, seq<seq<W>>) -> M,
                                         phaseInterp: (int, int, seq<seq<W>>) -> P,
                                         mags: seq<M>, phases: seq<P>)
    requires ArrayValid(ga) && ga.grid.mesh.Plane?
  {
    var n := ga.numSubgrids;
    |mags| == |phases| &&
    forall k :: 0 <= k < |mags| ==>
      0 <= k / n < n &&
      mags[k] == magInterp(ga.subgridCenters[k / n], ga.subgridCenters[k % n],
                           SubgridSpectrum2(ga, uIn, k / n, k % n, zero, transform)) &&
      phases[k] == phaseInterp(ga.subgridCenters[k / n], ga.subgridCenters[k % n],
                               SubgridSpectrum2(ga, uIn, k / n, k % n, zero, transform))
  }

  /** Appending the pair of subgrid (x, y) at position x * n + y keeps the
      collected entries in place. */
  lemma Collected2Extend<V, W, M, P>(ga: GridArray, uIn: (int, int) -> V, zero: V,
                                     transform: seq<seq<V>> -> seq<seq<W>>,
                                     magInterp: (int, int, seq<seq<W>>) -> M,
                                     phaseInterp: (int, int, seq<seq<W>>) -> P,
                                     mags: seq<M>, phases: seq<P>, x: int, y: int)
    requires ArrayValid(ga) && ga.grid.mesh.Plane?
    requires 0 <= x < ga.numSubgrids && 0 <= y < ga.numSubgrids
    requires Collected2(ga, uIn, zero, transform, magInterp, phaseInterp, mags, phases)
    requires |mags| == x * ga.numSubgrids + y
    ensures var F := SubgridSpectrum2(ga, uIn, x, y, zero, transform);
            var cx, cy := ga.subgridCenters[x], ga.subgridCenters[y];
            Collected2(ga, uIn, zero, transform, magInterp, phaseInterp,
                       mags + [magInterp(cx, cy, F)], phases + [phaseInterp(cx, cy, F)])
  {
    FlatIndex(ga.numSubgrids, x, y);
  }

  /** One iteration of the 2-D pipeline: appending the pair built from the
      transform of subgrid (x, y)'s rolled `rect2` sample at position
      x * n + y keeps every collected entry in place. */
  lemma Collected2Step<V, W, M, P>(ga: GridArray, uIn: (int, int) -> V, zero: V,
                                   transform: seq<seq<V>> -> seq<seq<W>>,
                                   magInterp: (int, int, seq<seq<W>>) -> M,
                                   phaseInterp: (int, int, seq<seq<W>>) -> P,
                                   mags: seq<M>, phases: seq<P>, x: int, y: int)
    requires ArrayValid(ga) && ga.grid.mesh.Plane?
    requires 0 <= x < ga.numSubgrids && 0 <= y < ga.numSubgrids
    requires Collected2(ga, uIn, zero, transform, magInterp, phaseInterp, mags, phases)
    requires |mags| == x * ga.numSubgrids + y
    ensures var cx, cy := ga.subgridCenters[x], ga.subgridCenters[y];
            var F := transform(Roll(RollColumns(Rect2(ga, uIn, x, y, zero), -cx), -cy));
            Collected2(ga, uIn, zero, transform, magInterp, phaseInterp,
                       mags + [magInterp(cx, cy, F)], phases + [phaseInterp(cx, cy, F)])
  {
    Collected2Extend(ga, uIn, zero, transform, magInterp, phaseInterp, mags, phases, x, y);
    assert SubgridSpectrum2(ga, uIn, x, y, zero, transform) ==
           transform(Roll(RollColumns(Rect2(ga, uIn, x, y, zero), -ga.subgridCenters[x]),
                          -ga.subgridCenters[y]));
  }

  /** The inner loop of `fft2Subgrid` for column subgridX: it appends the
      pairs of subgrids (subgridX, 0) .. (subgridX, n - 1) after those of
      the earlier columns. The scale factor of every iteration divides by
      wavelength * focalLength; when that product is zero (one of the two
      is zero) the first iteration raises `ZeroDivisionError`, reported here
      as `raised`. */
  method FftSubgridColumn<V, W, M, P>(uIn: (int, int) -> V, ga: GridArray, zero: V,
                                      transform: seq<seq<V>> -> seq<seq<W>>,
                                      magInterp: (int, int, seq<seq<W>>) -> M,
                                      phaseInterp: (int, int, seq<seq<W>>) -> P,
                                      subgridX: int, mags: seq<M>, phases: seq<P>)
    returns (interpMag: seq<M>, interpPhase: seq<P>, raised: bool)
    requires ArrayValid(ga) && ga.grid.mesh.Plane?
    requires 0 <= subgridX < ga.numSubgrids && |mags| == subgridX * ga.numSubgrids
    requires Collected2(ga, uIn, zero, transform, magInterp, phaseInterp, mags, phases)
    ensures raised <==> ga.grid.wavelength == 0.0 || ga.grid.focalLength == 0.0
    ensures !raised ==>
              |interpMag| == (subgridX + 1) * ga.numSubgrids &&
              Collected2(ga, uIn, zero, transform, magInterp, phaseInterp, interpMag, interpPhase)
  {
    var n := ga.numSubgrids;
    var noLens := ga.grid.wavelength == 0.0 || ga.grid.focalLength == 0.0;
    interpMag, interpPhase, raised := mags, phases, false;
    for subgridY := 0 to n
      invariant !raised && (subgridY > 0 ==> !noLens)
      invariant |interpMag| == subgridX * n + subgridY
      invariant Collected2(ga, uIn, zero, transform, magInterp, phaseInterp,
                           interpMag, interpPhase)
    {
      if noLens {
        // the scale factor divides by wavelength * focalLength
        raised := true;
        return;
      }
      var fieldSample := Rect2(ga, uIn, subgridX, subgridY, zero);
      var shiftX, shiftY := ga.subgridCenters[subgridX], ga.subgridCenters[subgridY];
      fieldSample := Roll(RollColumns(fieldSample, -shiftX), -shiftY);
      var F := transform(fieldSample);
      Collected2Step(ga, uIn, zero, transform, magInterp, phaseInterp,
                     interpMag, interpPhase, subgridX, subgridY);
      interpMag := interpMag + [magInterp(shiftX, shiftY, F)];
      interpPhase := interpPhase + [phaseInterp(shiftX, shiftY, F)];
    }
    assert subgridX * n + n == (subgridX + 1) * n;
  }

  /** `fft2Subgrid`: one (magnitude, phase) interpolant pair per subgrid pair,
      x outer and y inner, so entry k comes from subgrid (k / n, k % n).
      When wavelength or focalLength is zero, the first iteration raises
      `ZeroDivisionError` at the scale factor, reported here as `raised`. */
  method FftSubgrid2<V, W, M, P>(uIn: (int, int) -> V, ga: GridArray, zero: V,
                                 transform: seq<seq<V>> -> seq<seq<W>>,
                                 magInterp: (int, int, seq<seq<W>>) -> M,
                                 phaseInterp: (int, int, seq<seq<W>>) -> P)
    returns (interpMag: seq<M>, interpPhase: seq<P>, raised: bool)
    requires ArrayValid(ga) && ga.grid.mesh.Plane?
    ensures raised <==> ga.grid.wavelength == 0.0 || ga.grid.focalLength == 0.0
    ensures !raised ==> |interpMag| == ga.numSubgrids * ga.numSubgrids
    ensures !raised ==> |interpPhase| == ga.numSubgrids * ga.numSubgrids
    ensures !raised ==>
              forall k :: 0 <= k < |interpMag| ==>
                0 <= k / ga.numSubgrids < ga.numSubgrids &&
                interpMag[k] ==
                  magInterp(ga.subgridCenters[k / ga.numSubgrids],
                            ga.subgridCenters[k % ga.numSubgrids],
                            SubgridSpectrum2(ga, uIn, k / ga.numSubgrids, k % ga.numSubgrids,
                                             zero, transform))
    ensures !raised ==>
              forall k :: 0 <= k < |interpPhase| ==>
                0 <= k / ga.numSubgrids < ga.numSubgrids &&
                interpPhase[k] ==
                  phaseInterp(ga.subgridCenters[k / ga.numSubgrids],
                              ga.subgridCenters[k % ga.numSubgrids],
                              SubgridSpectrum2(ga, uIn, k / ga.numSubgrids, k % ga.numSubgrids,
                                               zero, transform))
  {
    var n := ga.numSubgrids;
    interpMag, interpPhase, raised := [], [], false;
    for subgridX := 0 to n
      invariant !raised
      invariant subgridX > 0 ==> ga.grid.wavelength != 0.0 && ga.grid.focalLength != 0.0
      invariant |interpMag| == subgridX * n
      invariant Collected2(ga, uIn, zero, transform, magInterp, phaseInterp, interpMag, interpPhase)
    {
      interpMag, interpPhase, raised :=
        FftSubgridColumn(uIn, ga, zero, transform, magInterp, phaseInterp,
                         subgridX, interpMag, interpPhase);
      if raised {
        return;
      }
    }
  }
}
