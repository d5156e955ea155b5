/** The 3D lookup table of clutter-color-state.c: how it is filled, addressed and interpolated. */
module Lut3d {
  import opened RealArithmetic

  datatype Rgb = Rgb(x: real, y: real, z: real)

  // --- tetrahedral interpolation -------------------------------------------------------------------

  /** The values at the corners of a cell: `v(a, b, c)` is the corner that is high in `x` if `a`, and so on. */
  type Corners = (bool, bool, bool) -> real

  /** The six branches of the shader, on the fractional position `t` in the cell. */
  function Tetrahedral(v: Corners, t: Rgb): real {
    var v000, v111 := v(false, false, false), v(true, true, true);
    if t.x > t.y then
      if t.y > t.z then
        var v100, v110 := v(true, false, false), v(true, true, false);
        v000 + t.x * (v100 - v000) + t.y * (v110 - v100) + t.z * (v111 - v110)
      else if t.x > t.z then
        var v100, v101 := v(true, false, false), v(true, false, true);
        v000 + t.x * (v100 - v000) + t.y * (v111 - v101) + t.z * (v101 - v100)
      else
        var v001, v101 := v(false, false, true), v(true, false, true);
        v000 + t.x * (v101 - v001) + t.y * (v111 - v101) + t.z * (v001 - v000)
    else
      if t.z > t.y then
        var v001, v011 := v(false, false, true), v(false, true, true);
        v000 + t.x * (v111 - v011) + t.y * (v011 - v001) + t.z * (v001 - v000)
      else if t.z > t.x then
        var v010, v011 := v(false, true, false), v(false, true, true);
        v000 + t.x * (v111 - v011) + t.y * (v010 - v000) + t.z * (v011 - v010)
      else
        var v010, v110 := v(false, true, false), v(true, true, false);
        v000 + t.x * (v110 - v010) + t.y * (v010 - v000) + t.z * (v111 - v110)
  }

  datatype Axis = X | Y | Z

  function Along(t: Rgb, a: Axis): real {
    match a case X => t.x case Y => t.y case Z => t.z
  }

  /** The corner that is high along `a`, and the one that is high along `a` and `b`. */
  function One(v: Corners, a: Axis): real { v(a.X?, a.Y?, a.Z?) }

  function Two(v: Corners, a: Axis, b: Axis): real { v(a.X? || b.X?, a.Y? || b.Y?, a.Z? || b.Z?) }

  /** The reference: barycentric coordinates in the tetrahedron reached by walking from the low corner
      to the high one along `a`, then `b`, then the third axis `c`. */
  function Barycentric(v: Corners, t: Rgb, a: Axis, b: Axis, c: Axis): real {
    var p, q, r := Along(t, a), Along(t, b), Along(t, c);
    (1.0 - p) * v(false, false, false) + (p - q) * One(v, a) + (q - r) * Two(v, a, b) + r * v(true, true, true)
  }

  ghost predicate Descending(t: Rgb, a: Axis, b: Axis, c: Axis) {
    a != b && b != c && a != c && Along(t, a) >= Along(t, b) >= Along(t, c)
  }

  /** The branch taken is the barycentric form for one descending order of the axes. */
  lemma BranchIsBarycentric(v: Corners, t: Rgb) returns (a: Axis, b: Axis, c: Axis)
    ensures Descending(t, a, b, c)
    ensures Tetrahedral(v, t) == Barycentric(v, t, a, b, c)
  {
    if t.x > t.y {
      if t.y > t.z { a, b, c := X, Y, Z; }
      else if t.x > t.z { a, b, c := X, Z, Y; }
      else { a, b, c := Z, X, Y; }
    } else {
      if t.z > t.y { a, b, c := Z, Y, X; }
      else if t.z > t.x { a, b, c := Y, Z, X; }
      else { a, b, c := Y, X, Z; }
    }
  }

  /** Where coordinates tie, every descending order gives the same value: swapping the first two axes
      moves weight `p - q == 0`, swapping the last two moves weight `q - r == 0`. */
  lemma SwapFirst(v: Corners, t: Rgb, a: Axis, b: Axis, c: Axis)
    requires Along(t, a) == Along(t, b)
    ensures Barycentric(v, t, a, b, c) == Barycentric(v, t, b, a, c)
  {
    assert Two(v, a, b) == Two(v, b, a);
  }

  lemma SwapLast(v: Corners, t: Rgb, a: Axis, b: Axis, c: Axis)
    requires Along(t, b) == Along(t, c)
    ensures Barycentric(v, t, a, b, c) == Barycentric(v, t, a, c, b)
  {
  }

  /** Branches agree on shared faces: any two descending orders give the same value. */
  lemma OrdersAgree(v: Corners, t: Rgb, a: Axis, b: Axis, c: Axis, a': Axis, b': Axis, c': Axis)
    requires Descending(t, a, b, c) && Descending(t, a', b', c')
    ensures Barycentric(v, t, a, b, c) == Barycentric(v, t, a', b', c')
  {
    hide Barycentric;
    if a == a' {
      if b != b' { SwapLast(v, t, a, b, c); }
    } else if a == b' {
      // a' is b or c, and sits at the level of a
      if a' == b {
        SwapFirst(v, t, a, b, c);
      } else {
        SwapLast(v, t, a, b, c);
        SwapFirst(v, t, a, c, b);
      }
    } else {
      // a is last in the second order: all three levels are equal
      if a' == b {
        SwapFirst(v, t, a, b, c);
        SwapLast(v, t, b, a, c);
      } else {
        SwapLast(v, t, a, b, c);
        SwapFirst(v, t, a, c, b);
        SwapLast(v, t, c, a, b);
      }
    }
  }

  /** The shader computes the barycentric value for every descending order of the axes. */
  lemma TetrahedralIsBarycentric(v: Corners, t: Rgb, a: Axis, b: Axis, c: Axis)
    requires Descending(t, a, b, c)
    ensures Tetrahedral(v, t) == Barycentric(v, t, a, b, c)
  {
    hide Tetrahedral, Barycentric;
    var a', b', c' := BranchIsBarycentric(v, t);
    OrdersAgree(v, t, a, b, c, a', b', c');
  }

  ghost predicate InUnitCube(t: Rgb) {
    0.0 <= t.x <= 1.0 && 0.0 <= t.y <= 1.0 && 0.0 <= t.z <= 1.0
  }

  lemma WeightedMean(w: real, a: real, lo: real, hi: real)
    requires w >= 0.0 && lo <= a <= hi
    ensures Mul(w, lo) <= Mul(w, a) <= Mul(w, hi)
  {
    ProductNonNegative(w, a - lo);
    ProductNonNegative(w, hi - a);
  }

  lemma UnitMean(p: real, q: real, r: real, x: real)
    ensures Mul(1.0 - p, x) + Mul(p - q, x) + Mul(q - r, x) + Mul(r, x) == x
  {
  }

  /** A convex combination of corners: nothing leaves their range. */
  lemma TetrahedralWithinRange(v: Corners, t: Rgb, lo: real, hi: real)
    requires InUnitCube(t)
    requires forall a, b, c :: lo <= v(a, b, c) <= hi
    ensures lo <= Tetrahedral(v, t) <= hi
  {
    hide Tetrahedral, Mul;
    var a, b, c := BranchIsBarycentric(v, t);
    var p, q, r := Along(t, a), Along(t, b), Along(t, c);
    WeightedMean(1.0 - p, v(false, false, false), lo, hi);
    WeightedMean(p - q, One(v, a), lo, hi);
    WeightedMean(q - r, Two(v, a, b), lo, hi);
    WeightedMean(r, v(true, true, true), lo, hi);
    UnitMean(p, q, r, lo);
    UnitMean(p, q, r, hi);
    BarycentricByName(v, t, a, b, c);
  }

  /** Larger corners give a larger value. */
  lemma TetrahedralMonotone(v: Corners, w: Corners, t: Rgb)
    requires InUnitCube(t)
    requires forall a, b, c :: v(a, b, c) <= w(a, b, c)
    ensures Tetrahedral(v, t) <= Tetrahedral(w, t)
  {
    hide Tetrahedral, Barycentric, Mul;
    var a, b, c := BranchIsBarycentric(v, t);
    TetrahedralIsBarycentric(w, t, a, b, c);
    var p, q, r := Along(t, a), Along(t, b), Along(t, c);
    WeightedMean(1.0 - p, v(false, false, false), v(false, false, false), w(false, false, false));
    WeightedMean(p - q, One(v, a), One(v, a), One(w, a));
    WeightedMean(q - r, Two(v, a, b), Two(v, a, b), Two(w, a, b));
    WeightedMean(r, v(true, true, true), v(true, true, true), w(true, true, true));
    BarycentricByName(v, t, a, b, c);
    BarycentricByName(w, t, a, b, c);
  }

  lemma BarycentricByName(v: Corners, t: Rgb, a: Axis, b: Axis, c: Axis)
    ensures var p, q, r := Along(t, a), Along(t, b), Along(t, c);
            Barycentric(v, t, a, b, c) ==
            Mul(1.0 - p, v(false, false, false)) + Mul(p - q, One(v, a)) +
            Mul(q - r, Two(v, a, b)) + Mul(r, v(true, true, true))
  {
  }

  function Pick(b: bool, d: real): real { if b then d else 0.0 }

  /** Corners that lie on a plane are interpolated on that plane. */
  lemma TetrahedralAffine(v: Corners, t: Rgb, p: real, d: Rgb)
    requires forall a, b, c :: v(a, b, c) == p + Pick(a, d.x) + Pick(b, d.y) + Pick(c, d.z)
    ensures Tetrahedral(v, t) == p + Mul(t.x, d.x) + Mul(t.y, d.y) + Mul(t.z, d.z)
  {
  }

  /** Neighbouring cells agree on the face they share: the far face of one is the near face of the next. */
  lemma CellsAgree(v: Corners, w: Corners, axis: Axis, t: Rgb)
    requires InUnitCube(t) && Along(t, axis) == 1.0
    requires forall b, c :: axis == X ==> v(true, b, c) == w(false, b, c)
    requires forall a, c :: axis == Y ==> v(a, true, c) == w(a, false, c)
    requires forall a, b :: axis == Z ==> v(a, b, true) == w(a, b, false)
    ensures Tetrahedral(v, t) == Tetrahedral(w, Zeroed(t, axis))
  {
    hide Tetrahedral, Barycentric, Mul;
    var (b, c) := match axis
      case X => if t.y >= t.z then (Y, Z) else (Z, Y)
      case Y => if t.x >= t.z then (X, Z) else (Z, X)
      case Z => if t.x >= t.y then (X, Y) else (Y, X);
    TetrahedralIsBarycentric(v, t, axis, b, c);
    TetrahedralIsBarycentric(w, Zeroed(t, axis), b, c, axis);
    BarycentricByName(v, t, axis, b, c);
    BarycentricByName(w, Zeroed(t, axis), b, c, axis);
    MulZero(v(false, false, false));
    MulZero(w(true, true, true));
  }

  lemma MulZero(a: real)
    ensures Mul(0.0, a) == 0.0
  {
  }

  function Zeroed(t: Rgb, axis: Axis): Rgb {
    match axis case X => t.(x := 0.0) case Y => t.(y := 0.0) case Z => t.(z := 0.0)
  }

  // --- addressing ------------------------------------------------------------------------------------

  /** One channel of the uploaded texture, `size` texels wide and `size * size` high. */
  type Texture = (int, int) -> real

  /** Nearest filtering with clamp-to-edge: the texel that a normalised coordinate selects. */
  function Nearest(coord: real, n: nat): int
    requires n > 0
  {
    var i := Mul(coord, n as real).Floor;
    if i < 0 then 0 else if i >= n then n - 1 else i
  }

  /** Texel `i` of `n` is addressed as `i / (n - 1)`: the product lands in texel `i`, except that the
      last one lands past the end and is clamped back. */
  lemma NearestExact(i: nat, n: nat)
    requires n >= 2 && i < n
    ensures Nearest(Quot(i as real, n as real - 1.0), n) == i
    ensures Nearest(Mul(i as real, Quot(1.0, n as real - 1.0)), n) == i
  {
    hide Mul, Quot;
    var q := Share(i as real, n as real - 1.0);
    assert (i as real + q).Floor == if i < n - 1 then i else n;
  }

  lemma Share(i: real, k: real) returns (q: real)
    requires 0.0 <= i <= k && k > 0.0
    ensures q == Quot(i, k) == Mul(i, Quot(1.0, k)) && Mul(q, k + 1.0) == i + q
    ensures 0.0 <= q <= 1.0 && (q == 1.0 <==> i == k)
  {
    q := i / k;
    assert q * k == i;
    ScaleSign(q, k);
    assert (1.0 - q) * k == k - i;
    ScaleSign(1.0 - q, k);
    assert (i * (1.0 / k) - q) * k == 0.0;
    ScaleSign(i * (1.0 / k) - q, k);
  }

  /** The height of the texture and the row of lattice point `(_, j, k)`. */
  function Rows(size: nat): nat { size * size }

  function RowOf(j: nat, k: nat, size: nat): nat { j + k * size }

  lemma RowsAsReal(size: nat)
    requires size >= 2
    ensures Rows(size) >= 2 && Rows(size) as real == Mul(size as real, size as real)
    ensures Mul(size as real, size as real) - 1.0 > 0.0
  {
    ProductAsReal(size, size);
    assert size * size >= 2 * size;
  }

  lemma RowInRange(j: nat, k: nat, size: nat)
    requires j < size && k < size
    ensures RowOf(j, k, size) < Rows(size)
    ensures RowOf(j, k, size) as real == j as real + Mul(k as real, size as real)
  {
    RowBound(j, k, size);
    ProductAsReal(k, size);
  }

  lemma RowBound(j: nat, k: nat, size: nat)
    requires j < size && k < size
    ensures j + k * size < size * size
  {
    var d := size - 1 - k;
    assert d * size >= 0;
    assert size * size == (k + 1 + d) * size == k * size + size + d * size;
  }

  /** The texel at cell index `(ix, iy, iz)`, fetched with the shader's normalised coordinates. */
  function Fetch(tex: Texture, size: nat, ix: real, iy: real, iz: real): real
    requires size >= 2
  {
    RowsAsReal(size);
    var s := size as real;
    var normalizeV := Quot(1.0, Mul(s, s) - 1.0);
    tex(Nearest(Quot(ix, s - 1.0), size), Nearest(Mul(iy + Mul(iz, s), normalizeV), Rows(size)))
  }

  /** Addressing is exact: lattice point `(i, j, k)` selects column `i` of row `j + k * size`. */
  lemma FetchExact(tex: Texture, size: nat, i: nat, j: nat, k: nat)
    requires size >= 2 && i < size && j < size && k < size
    ensures Fetch(tex, size, i as real, j as real, k as real) == tex(i, RowOf(j, k, size))
  {
    hide Nearest, Mul, Quot, Rows, RowOf;
    RowsAsReal(size);
    RowInRange(j, k, size);
    NearestExact(i, size);
    NearestExact(RowOf(j, k, size), Rows(size));
  }

  // --- the shader --------------------------------------------------------------------------------------

  function FloorOf(x: real): real { x.Floor as real }

  function CornersOf(tex: Texture, size: nat, low: Rgb, high: Rgb): Corners
    requires size >= 2
  {
    (a, b, c) => Fetch(tex, size, if a then high.x else low.x, if b then high.y else low.y, if c then high.z else low.z)
  }

  function Scaled(size: nat, color: Rgb): Rgb {
    var s := size as real - 1.0;
    Rgb(Mul(color.x, s), Mul(color.y, s), Mul(color.z, s))
  }

  function Low(scaled: Rgb): Rgb { Rgb(FloorOf(scaled.x), FloorOf(scaled.y), FloorOf(scaled.z)) }

  function High(size: nat, low: Rgb): Rgb {
    var s := size as real - 1.0;
    Rgb(Min(low.x + 1.0, s), Min(low.y + 1.0, s), Min(low.z + 1.0, s))
  }

  function Fraction(scaled: Rgb): Rgb {
    var low := Low(scaled);
    Rgb(scaled.x - low.x, scaled.y - low.y, scaled.z - low.z)
  }

  /** `sample_3d_lut`, for one channel. */
  function SampleLut(tex: Texture, size: nat, color: Rgb): real
    requires size >= 2
  {
    var scaled := Scaled(size, color);
    var low := Low(scaled);
    Tetrahedral(CornersOf(tex, size, low, High(size, low)), Fraction(scaled))
  }

  // --- what a table must hold ------------------------------------------------------------------------

  /** The coordinate of lattice index `i`. */
  function Grid(i: int, size: nat): real
    requires size >= 2
  {
    Mul(i as real, Quot(1.0, size as real - 1.0))
  }

  function GridPoint(i: int, j: int, k: int, size: nat): Rgb
    requires size >= 2
  {
    Rgb(Grid(i, size), Grid(j, size), Grid(k, size))
  }

  /** The texture holds the transform at every lattice point. */
  ghost predicate Tabulates(tex: Texture, size: nat, f: Rgb -> real)
    requires size >= 2
  {
    forall i: nat, j: nat, k: nat :: i < size && j < size && k < size ==>
      tex(i, RowOf(j, k, size)) == f(GridPoint(i, j, k, size))
  }

  /** Index of the cell along one axis, its upper neighbour, and the clamped cell at the top. */
  lemma CellIndex(x: real, size: nat) returns (i: nat, i': nat)
    requires size >= 2 && 0.0 <= x <= 1.0
    ensures var s := Mul(x, size as real - 1.0);
            && i < size && i' < size && FloorOf(s) == i as real
            && Min(FloorOf(s) + 1.0, size as real - 1.0) == i' as real
            && 0.0 <= s - FloorOf(s) < 1.0
            && (i' == i + 1 || (i' == i == size - 1 && s - FloorOf(s) == 0.0))
  {
    hide Mul;
    ScaleInRange(x, size as real - 1.0);
    var s := Mul(x, size as real - 1.0);
    i := s.Floor;
    i' := if i < size - 1 then i + 1 else i;
  }

  lemma ScaleInRange(x: real, n: real)
    requires 0.0 <= x <= 1.0 && n > 0.0
    ensures 0.0 <= Mul(x, n) <= n
  {
    ProductNonNegative(x, n);
    ProductNonNegative(1.0 - x, n);
    assert (1.0 - x) * n == n - x * n;
  }

  /** The corners the shader reads are lattice values of the transform. */
  lemma CornersTabulated(tex: Texture, size: nat, f: Rgb -> real, color: Rgb) returns (i: Index, i': Index)
    requires size >= 2 && InUnitCube(color) && Tabulates(tex, size, f)
    ensures var scaled := Scaled(size, color);
            var low := Low(scaled);
            var v, t := CornersOf(tex, size, low, High(size, low)), Fraction(scaled);
            && InUnitCube(t) && i.Below(size) && i'.Below(size)
            && low == i.AsRgb() && Capped(i.x, i'.x, size) && Capped(i.y, i'.y, size) && Capped(i.z, i'.z, size)
            && Steps(i.x, i'.x, t.x) && Steps(i.y, i'.y, t.y) && Steps(i.z, i'.z, t.z)
            && forall a, b, c :: v(a, b, c) ==
                 f(GridPoint(if a then i'.x else i.x, if b then i'.y else i.y, if c then i'.z else i.z, size))
  {
    hide Fetch, GridPoint, Mul, FloorOf, Min;
    var x, x' := CellIndex(color.x, size);
    var y, y' := CellIndex(color.y, size);
    var z, z' := CellIndex(color.z, size);
    i, i' := Index(x, y, z), Index(x', y', z');
    var low := Low(Scaled(size, color));
    var v := CornersOf(tex, size, low, High(size, low));
    forall a, b, c
      ensures v(a, b, c) == f(GridPoint(if a then x' else x, if b then y' else y, if c then z' else z, size))
    {
      FetchExact(tex, size, if a then x' else x, if b then y' else y, if c then z' else z);
    }
  }

  datatype Index = Index(x: nat, y: nat, z: nat) {
    predicate Below(n: nat) { x < n && y < n && z < n }

    function AsRgb(): Rgb { Rgb(x as real, y as real, z as real) }

    function Next(): Index { Index(x + 1, y + 1, z + 1) }
  }

  /** Only the top of the lattice has no upper neighbour. */
  ghost predicate Capped(i: nat, i': nat, size: nat) { i' == i + 1 || i' == i == size - 1 }

  /** Either the cell has an upper neighbour, or the colour sits on its low side. */
  ghost predicate Steps(i: nat, i': nat, t: real) { i' == i + 1 || (i' == i && t == 0.0) }

  // --- the three theorems about a tabulated transform --------------------------------------------------

  /** The sample never leaves the range of the tabulated values. */
  lemma SampleWithinRange(tex: Texture, size: nat, f: Rgb -> real, color: Rgb, lo: real, hi: real)
    requires size >= 2 && InUnitCube(color) && Tabulates(tex, size, f)
    requires forall i: nat, j: nat, k: nat :: i < size && j < size && k < size ==>
               lo <= f(GridPoint(i, j, k, size)) <= hi
    ensures lo <= SampleLut(tex, size, color) <= hi
  {
    hide Tetrahedral, CornersOf, Scaled, Low, High, Fraction, GridPoint, Tabulates;
    var i, i' := CornersTabulated(tex, size, f, color);
    var scaled := Scaled(size, color);
    var low := Low(scaled);
    TetrahedralWithinRange(CornersOf(tex, size, low, High(size, low)), Fraction(scaled), lo, hi);
  }

  lemma GridScaled(i: nat, size: nat)
    requires size >= 2 && i < size
    ensures Mul(Grid(i, size), size as real - 1.0) == i as real
    ensures 0.0 <= Grid(i, size) <= 1.0
  {
    var n := size as real - 1.0;
    var g := i as real * (1.0 / n);
    assert g * n == i as real;
    ScaleSign(g, n);
    assert (1.0 - g) * n == n - i as real;
    ScaleSign(1.0 - g, n);
  }

  /** At lattice points the sample is the transform itself, whatever the transform. */
  lemma SampleAtLattice(tex: Texture, size: nat, f: Rgb -> real, i: nat, j: nat, k: nat)
    requires size >= 2 && i < size && j < size && k < size && Tabulates(tex, size, f)
    ensures SampleLut(tex, size, GridPoint(i, j, k, size)) == f(GridPoint(i, j, k, size))
  {
    hide Grid, Mul, Fetch, High, Tetrahedral, CornersOf;
    var color := GridPoint(i, j, k, size);
    GridScaled(i, size);
    GridScaled(j, size);
    GridScaled(k, size);
    assert Scaled(size, color) == Rgb(i as real, j as real, k as real);
    var low := Low(Scaled(size, color));
    assert low == Rgb(i as real, j as real, k as real);
    var v := CornersOf(tex, size, low, High(size, low));
    TetrahedralAtLow(v);
    LowCorner(tex, size, low, High(size, low));
    FetchExact(tex, size, i, j, k);
  }

  lemma TetrahedralAtLow(v: Corners)
    ensures Tetrahedral(v, Rgb(0.0, 0.0, 0.0)) == v(false, false, false)
  {
  }

  lemma LowCorner(tex: Texture, size: nat, low: Rgb, high: Rgb)
    requires size >= 2
    ensures CornersOf(tex, size, low, high)(false, false, false) == Fetch(tex, size, low.x, low.y, low.z)
  {
  }

  /** An affine transform: an offset and one slope per axis. */
  datatype Affine = Affine(offset: real, slope: Rgb) {
    function At(color: Rgb): real {
      offset + Mul(slope.x, color.x) + Mul(slope.y, color.y) + Mul(slope.z, color.z)
    }

    function Map(): Rgb -> real { color => At(color) }
  }

  /** Difference of an affine map across one cell. */
  function Rise(slope: real, i: nat, i': nat, size: nat): real
    requires size >= 2
  {
    Mul(slope, Grid(i', size)) - Mul(slope, Grid(i, size))
  }

  lemma AxisAffine(slope: real, x: real, size: nat, i: nat, i': nat, t: real)
    requires size >= 2 && Steps(i, i', t) && Mul(x, size as real - 1.0) == i as real + t
    ensures Mul(slope, Grid(i, size)) + Mul(t, Rise(slope, i, i', size)) == Mul(slope, x)
  {
    var n := size as real - 1.0;
    var h := 1.0 / n;
    assert h * n == 1.0;
    assert x == (x * n) * h;
    assert x == i as real * h + t * h;
    if i' == i + 1 {
      assert Grid(i', size) == i as real * h + h;
      assert Rise(slope, i, i', size) == slope * h;
      assert slope * x == slope * (i as real * h) + t * (slope * h);
    } else {
      assert slope * x == slope * (i as real * h);
    }
  }

  /** The table of an affine map reproduces it at every colour of the unit cube. */
  lemma SampleAffine(tex: Texture, size: nat, f: Affine, color: Rgb)
    requires size >= 2 && InUnitCube(color) && Tabulates(tex, size, f.Map())
    ensures SampleLut(tex, size, color) == f.At(color)
  {
    hide Tetrahedral, CornersOf, High, Mul, Grid, Rise, Tabulates;
    var i, i' := CornersTabulated(tex, size, f.Map(), color);
    var scaled := Scaled(size, color);
    var t := Fraction(scaled);
    var low := Low(scaled);
    var v := CornersOf(tex, size, low, High(size, low));
    var d := Rgb(Rise(f.slope.x, i.x, i'.x, size), Rise(f.slope.y, i.y, i'.y, size), Rise(f.slope.z, i.z, i'.z, size));
    var p := f.At(GridPoint(i.x, i.y, i.z, size));
    forall a, b, c ensures v(a, b, c) == p + Pick(a, d.x) + Pick(b, d.y) + Pick(c, d.z) {
      AffineCorner(f, size, i, i', a, b, c);
    }
    TetrahedralAffine(v, t, p, d);
    AxisAffine(f.slope.x, color.x, size, i.x, i'.x, t.x);
    AxisAffine(f.slope.y, color.y, size, i.y, i'.y, t.y);
    AxisAffine(f.slope.z, color.z, size, i.z, i'.z, t.z);
  }

  lemma AffineCorner(f: Affine, size: nat, i: Index, i': Index, a: bool, b: bool, c: bool)
    requires size >= 2
    ensures f.Map()(GridPoint(if a then i'.x else i.x, if b then i'.y else i.y, if c then i'.z else i.z, size)) ==
            f.At(GridPoint(i.x, i.y, i.z, size)) + Pick(a, Rise(f.slope.x, i.x, i'.x, size)) +
            Pick(b, Rise(f.slope.y, i.y, i'.y, size)) + Pick(c, Rise(f.slope.z, i.z, i'.z, size))
  {
    hide Mul, Grid;
  }

  // --- continuity ------------------------------------------------------------------------------------

  /** The transform at the corners between two lattice points. */
  function Cell(f: Rgb -> real, size: nat, low: Index, high: Index): Corners
    requires size >= 2
  {
    (a, b, c) =>
      f(GridPoint(if a then high.x else low.x, if b then high.y else low.y, if c then high.z else low.z, size))
  }

  function Entry(i: Index, axis: Axis): nat {
    match axis case X => i.x case Y => i.y case Z => i.z
  }

  function Moved(i: Index, to: Index, axis: Axis): Index {
    match axis case X => i.(x := to.x) case Y => i.(y := to.y) case Z => i.(z := to.z)
  }

  function Placed(t: Rgb, u: Rgb, axis: Axis): Rgb {
    match axis case X => t.(x := u.x) case Y => t.(y := u.y) case Z => t.(z := u.z)
  }

  /** `color` lies in the closed cell above lattice point `i`, at `t`. */
  ghost predicate InCell(size: nat, color: Rgb, i: Index, t: Rgb) {
    && InUnitCube(t) && i.Next().Below(size)
    && Scaled(size, color) == Rgb(i.x as real + t.x, i.y as real + t.y, i.z as real + t.z)
  }

  /** Every colour of the unit cube lies in some closed cell. */
  lemma EveryColorInCell(size: nat, color: Rgb) returns (i: Index, t: Rgb)
    requires size >= 2 && InUnitCube(color)
    ensures InCell(size, color, i, t)
  {
    hide Mul;
    var x, tx := ClosedCell(color.x, size);
    var y, ty := ClosedCell(color.y, size);
    var z, tz := ClosedCell(color.z, size);
    i, t := Index(x, y, z), Rgb(tx, ty, tz);
  }

  lemma ClosedCell(x: real, size: nat) returns (i: nat, t: real)
    requires size >= 2 && 0.0 <= x <= 1.0
    ensures i + 1 < size && 0.0 <= t <= 1.0 && Mul(x, size as real - 1.0) == i as real + t
  {
    hide Mul;
    var j, j' := CellIndex(x, size);
    i := if j' == j then j - 1 else j;
    t := Mul(x, size as real - 1.0) - i as real;
  }

  /** What one axis of the shader's cell has to do with a closed cell from `i` to `i + 1`. */
  ghost predicate SamePlace(i: nat, t: real, j: nat, j': nat, u: real) {
    || (j == i && j' == i + 1 && u == t)
    || (t == 1.0 && j == i + 1 && u == 0.0)
  }

  lemma SameFloor(i: nat, t: real, j: nat, j': nat, u: real, size: nat)
    requires 0.0 <= t <= 1.0 && 0.0 <= u < 1.0 && i as real + t == j as real + u
    requires i + 1 < size && Capped(j, j', size)
    ensures SamePlace(i, t, j, j', u)
  {
  }

  /** Along one axis, from a closed cell that holds the colour to the cell the shader reads: the same, or
      the next one if the colour is on the far face. */
  lemma TowardsShaderCell(f: Rgb -> real, size: nat, low: Index, high: Index, t: Rgb,
                          j: Index, j': Index, u: Rgb, axis: Axis)
    requires size >= 2 && InUnitCube(t) && Entry(high, axis) == Entry(low, axis) + 1
    requires SamePlace(Entry(low, axis), Along(t, axis), Entry(j, axis), Entry(j', axis), Along(u, axis))
    ensures InUnitCube(Placed(t, u, axis))
    ensures Tetrahedral(Cell(f, size, Moved(low, j, axis), Moved(high, j', axis)), Placed(t, u, axis)) ==
            Tetrahedral(Cell(f, size, low, high), t)
  {
    hide Tetrahedral, GridPoint;
    if Entry(j, axis) == Entry(low, axis) {
      assert Moved(low, j, axis) == low && Moved(high, j', axis) == high && Placed(t, u, axis) == t;
    } else {
      CellsAgree(Cell(f, size, low, high), Cell(f, size, Moved(low, j, axis), Moved(high, j', axis)), axis, t);
    }
  }

  /** In every closed cell that holds the colour, the sample is the interpolation of that cell; so the
      sample is continuous across faces, edges and corners of the cells and at the clamped top. */
  lemma SampleInCell(tex: Texture, size: nat, f: Rgb -> real, color: Rgb, i: Index, t: Rgb)
    requires size >= 2 && InUnitCube(color) && Tabulates(tex, size, f)
    requires InCell(size, color, i, t)
    ensures SampleLut(tex, size, color) == Tetrahedral(Cell(f, size, i, i.Next()), t)
  {
    hide Tetrahedral, CornersOf, Cell, High, Scaled, Tabulates, FloorOf, GridPoint;
    var j, j' := CornersTabulated(tex, size, f, color);
    var scaled := Scaled(size, color);
    var u := Fraction(scaled);
    FractionBelowOne(scaled);
    SameFloor(i.x, t.x, j.x, j'.x, u.x, size);
    SameFloor(i.y, t.y, j.y, j'.y, u.y, size);
    SameFloor(i.z, t.z, j.z, j'.z, u.z, size);
    CellsChain(f, size, i, t, j, j', u);
    CellIsCorners(CornersOf(tex, size, Low(scaled), High(size, Low(scaled))), f, size, j, j', u);
  }

  lemma FractionBelowOne(scaled: Rgb)
    ensures var u := Fraction(scaled); u.x < 1.0 && u.y < 1.0 && u.z < 1.0
  {
  }

  /** All three axes in turn. */
  lemma CellsChain(f: Rgb -> real, size: nat, i: Index, t: Rgb, j: Index, j': Index, u: Rgb)
    requires size >= 2 && InUnitCube(t)
    requires SamePlace(i.x, t.x, j.x, j'.x, u.x) && SamePlace(i.y, t.y, j.y, j'.y, u.y)
    requires SamePlace(i.z, t.z, j.z, j'.z, u.z)
    ensures Tetrahedral(Cell(f, size, i, i.Next()), t) == Tetrahedral(Cell(f, size, j, j'), u)
  {
    hide Tetrahedral, Cell, SamePlace;
    var i' := i.Next();
    TowardsShaderCell(f, size, i, i', t, j, j', u, X);
    TowardsShaderCell(f, size, i.(x := j.x), i'.(x := j'.x), t.(x := u.x), j, j', u, Y);
    TowardsShaderCell(f, size, j.(z := i.z), j'.(z := i'.z), u.(z := t.z), j, j', u, Z);
    assert i.(x := j.x).(y := j.y) == j.(z := i.z) && i'.(x := j'.x).(y := j'.y) == j'.(z := i'.z);
    assert t.(x := u.x).(y := u.y) == u.(z := t.z);
  }

  lemma CellIsCorners(v: Corners, f: Rgb -> real, size: nat, low: Index, high: Index, t: Rgb)
    requires size >= 2
    requires forall a, b, c :: v(a, b, c) ==
               f(GridPoint(if a then high.x else low.x, if b then high.y else low.y, if c then high.z else low.z, size))
    ensures Tetrahedral(v, t) == Tetrahedral(Cell(f, size, low, high), t)
  {
    hide GridPoint, Tetrahedral;
    SameCorners(v, Cell(f, size, low, high), t);
  }

  lemma SameCorners(v: Corners, w: Corners, t: Rgb)
    requires forall a, b, c :: v(a, b, c) == w(a, b, c)
    ensures Tetrahedral(v, t) == Tetrahedral(w, t)
  {
    hide Tetrahedral, Barycentric, Mul;
    var a, b, c := BranchIsBarycentric(v, t);
    TetrahedralIsBarycentric(w, t, a, b, c);
    BarycentricByName(v, t, a, b, c);
    BarycentricByName(w, t, a, b, c);
  }

  /** Cells that share a point interpolate it alike. */
  lemma CellsMeet(tex: Texture, size: nat, f: Rgb -> real, color: Rgb, i: Index, t: Rgb, j: Index, u: Rgb)
    requires size >= 2 && InUnitCube(color) && Tabulates(tex, size, f)
    requires InCell(size, color, i, t) && InCell(size, color, j, u)
    ensures Tetrahedral(Cell(f, size, i, i.Next()), t) == Tetrahedral(Cell(f, size, j, j.Next()), u)
  {
    hide Tetrahedral, Cell, Tabulates, InCell, SampleLut;
    SampleInCell(tex, size, f, color, i, t);
    SampleInCell(tex, size, f, color, j, u);
  }

  // --- how far the table can be from the transform ---------------------------------------------------

  function Between(a: real, b: real): real { if a >= b then a - b else b - a }

  function Distance(p: Rgb, q: Rgb): real { Between(p.x, q.x) + Between(p.y, q.y) + Between(p.z, q.z) }

  /** `bound` limits the slope of the transform along every axis. */
  ghost predicate Lipschitz(f: Rgb -> real, bound: real) {
    bound >= 0.0 && forall p, q :: InUnitCube(p) && InUnitCube(q) ==> f(p) - f(q) <= Mul(bound, Distance(p, q))
  }

  /** The way from the colour to a corner along one axis, in cells. */
  function Off(high: bool, t: real): real { t + Pick(high, 1.0 - 2.0 * t) }

  lemma AxisDistance(x: real, size: nat, i: nat, i': nat, t: real, high: bool)
    requires size >= 2 && Steps(i, i', t) && 0.0 <= t <= 1.0 && Mul(x, size as real - 1.0) == i as real + t
    ensures Between(Grid(if high then i' else i, size), x) <= Mul(Off(high, t), Quot(1.0, size as real - 1.0))
  {
    var n := size as real - 1.0;
    var h := 1.0 / n;
    assert h * n == 1.0;
    ScaleSign(h, n);
    assert x == (x * n) * h;
    assert x == i as real * h + t * h;
    ProductNonNegative(t, h);
    ProductNonNegative(1.0 - t, h);
    if high && i' == i + 1 {
      assert Grid(i', size) == i as real * h + h;
    }
  }

  /** What the slope allows over the width of a cell. */
  function Reach(bound: real, size: nat): real
    requires size >= 2
  {
    Mul(bound, Quot(1.0, size as real - 1.0))
  }

  lemma CornerNear(f: Rgb -> real, bound: real, size: nat, color: Rgb, i: Index, i': Index, t: Rgb,
                   a: bool, b: bool, c: bool)
    requires size >= 2 && Lipschitz(f, bound) && InUnitCube(color) && InUnitCube(t)
    requires i.Below(size) && i'.Below(size)
    requires Steps(i.x, i'.x, t.x) && Steps(i.y, i'.y, t.y) && Steps(i.z, i'.z, t.z)
    requires Scaled(size, color) == Rgb(i.x as real + t.x, i.y as real + t.y, i.z as real + t.z)
    ensures Between(Cell(f, size, i, i')(a, b, c), f(color)) <=
            Mul(Reach(bound, size), Off(a, t.x) + Off(b, t.y) + Off(c, t.z))
  {
    hide Grid, Mul, Quot, Off;
    var x, y, z := if a then i'.x else i.x, if b then i'.y else i.y, if c then i'.z else i.z;
    var corner := GridPoint(x, y, z, size);
    GridScaled(x, size);
    GridScaled(y, size);
    GridScaled(z, size);
    AxisDistance(color.x, size, i.x, i'.x, t.x, a);
    AxisDistance(color.y, size, i.y, i'.y, t.y, b);
    AxisDistance(color.z, size, i.z, i'.z, t.z, c);
    assert Distance(corner, color) == Distance(color, corner);
    ScaleDistance(bound, Quot(1.0, size as real - 1.0), Distance(color, corner), Off(a, t.x), Off(b, t.y), Off(c, t.z));
  }

  lemma ScaleDistance(bound: real, h: real, d: real, p: real, q: real, r: real)
    requires bound >= 0.0 && d <= Mul(p, h) + Mul(q, h) + Mul(r, h)
    ensures Mul(bound, d) <= Mul(Mul(bound, h), p + q + r)
  {
    var far := p * h + q * h + r * h;
    ProductNonNegative(bound, far - d);
    assert bound * far == (bound * h) * (p + q + r);
  }

  /** The corners of a plane that is `base` plus `scale` times the way from the colour. */
  function Plane(base: real, scale: real, t: Rgb): Corners {
    (a, b, c) => base + Mul(scale, Off(a, t.x) + Off(b, t.y) + Off(c, t.z))
  }

  lemma PlaneAtColor(base: real, scale: real, t: Rgb)
    ensures Tetrahedral(Plane(base, scale, t), t) ==
            base + Mul(scale, 2.0 * Mul(t.x, 1.0 - t.x) + 2.0 * Mul(t.y, 1.0 - t.y) + 2.0 * Mul(t.z, 1.0 - t.z))
  {
    hide Tetrahedral;
    var p := base + Mul(scale, t.x + t.y + t.z);
    var d := Rgb(Mul(scale, 1.0 - 2.0 * t.x), Mul(scale, 1.0 - 2.0 * t.y), Mul(scale, 1.0 - 2.0 * t.z));
    forall a, b, c ensures Plane(base, scale, t)(a, b, c) == p + Pick(a, d.x) + Pick(b, d.y) + Pick(c, d.z) {
      PlaneCorner(scale, t, a, b, c);
    }
    TetrahedralAffine(Plane(base, scale, t), t, p, d);
    PlaneSum(scale, t);
  }

  lemma PlaneCorner(scale: real, t: Rgb, a: bool, b: bool, c: bool)
    ensures Mul(scale, Off(a, t.x) + Off(b, t.y) + Off(c, t.z)) ==
            Mul(scale, t.x + t.y + t.z) + Pick(a, Mul(scale, 1.0 - 2.0 * t.x)) +
            Pick(b, Mul(scale, 1.0 - 2.0 * t.y)) + Pick(c, Mul(scale, 1.0 - 2.0 * t.z))
  {
  }

  lemma PlaneSum(scale: real, t: Rgb)
    ensures Mul(scale, t.x + t.y + t.z) + Mul(t.x, Mul(scale, 1.0 - 2.0 * t.x)) +
            Mul(t.y, Mul(scale, 1.0 - 2.0 * t.y)) + Mul(t.z, Mul(scale, 1.0 - 2.0 * t.z)) ==
            Mul(scale, 2.0 * Mul(t.x, 1.0 - t.x) + 2.0 * Mul(t.y, 1.0 - t.y) + 2.0 * Mul(t.z, 1.0 - t.z))
  {
    hide Mul;
    PlaneAxis(scale, t.x);
    PlaneAxis(scale, t.y);
    PlaneAxis(scale, t.z);
    Distribute(scale, t.x, t.y, t.z);
    Distribute(scale, 2.0 * Mul(t.x, 1.0 - t.x), 2.0 * Mul(t.y, 1.0 - t.y), 2.0 * Mul(t.z, 1.0 - t.z));
  }

  lemma PlaneAxis(scale: real, t: real)
    ensures Mul(scale, t) + Mul(t, Mul(scale, 1.0 - 2.0 * t)) == Mul(scale, 2.0 * Mul(t, 1.0 - t))
  {
    assert t * (scale * (1.0 - 2.0 * t)) == scale * (t * (1.0 - 2.0 * t));
    assert t + t * (1.0 - 2.0 * t) == 2.0 * (t * (1.0 - t));
  }

  lemma Distribute(k: real, a: real, b: real, c: real)
    ensures Mul(k, a + b + c) == Mul(k, a) + Mul(k, b) + Mul(k, c)
  {
  }

  lemma HalfAtMost(t: real)
    ensures 2.0 * Mul(t, 1.0 - t) <= 0.5
  {
    var d := t - 0.5;
    assert t * (1.0 - t) == 0.25 - d * d;
    assert d * d >= 0.0;
  }

  /** The table of a transform with bounded slope is near the transform at every colour of the unit cube:
      the error is at most what the slope allows over one and a half cells. */
  lemma SampleNearTransform(tex: Texture, size: nat, f: Rgb -> real, bound: real, color: Rgb)
    requires size >= 2 && InUnitCube(color) && Tabulates(tex, size, f) && Lipschitz(f, bound)
    ensures Between(SampleLut(tex, size, color), f(color)) <= Mul(1.5, Reach(bound, size))
  {
    hide Tetrahedral, CornersOf, Cell, High, Mul, Tabulates, Lipschitz, Off, Reach, Plane;
    var i, i' := CornersTabulated(tex, size, f, color);
    var scaled := Scaled(size, color);
    var t, low := Fraction(scaled), Low(scaled);
    CellIsCorners(CornersOf(tex, size, low, High(size, low)), f, size, i, i', t);
    var v, reach := Cell(f, size, i, i'), Reach(bound, size);
    var above, below := Plane(f(color), reach, t), Plane(f(color), 0.0 - reach, t);
    forall a, b, c ensures below(a, b, c) <= v(a, b, c) <= above(a, b, c) {
      CornerNear(f, bound, size, color, i, i', t, a, b, c);
      PlaneSides(f(color), reach, t, a, b, c);
    }
    TetrahedralMonotone(v, above, t);
    TetrahedralMonotone(below, v, t);
    PlaneAtColor(f(color), reach, t);
    PlaneAtColor(f(color), 0.0 - reach, t);
    HalfAtMost(t.x);
    HalfAtMost(t.y);
    HalfAtMost(t.z);
    ReachNonNegative(f, bound, size);
    ScaleWithin(reach, 2.0 * Mul(t.x, 1.0 - t.x) + 2.0 * Mul(t.y, 1.0 - t.y) + 2.0 * Mul(t.z, 1.0 - t.z));
  }

  lemma PlaneSides(base: real, reach: real, t: Rgb, a: bool, b: bool, c: bool)
    ensures var way := Mul(reach, Off(a, t.x) + Off(b, t.y) + Off(c, t.z));
            Plane(base, reach, t)(a, b, c) == base + way && Plane(base, 0.0 - reach, t)(a, b, c) == base - way
  {
    hide Off;
  }

  lemma ReachNonNegative(f: Rgb -> real, bound: real, size: nat)
    requires size >= 2 && Lipschitz(f, bound)
    ensures Reach(bound, size) >= 0.0
  {
    var n := size as real - 1.0;
    assert (1.0 / n) * n == 1.0;
    ScaleSign(1.0 / n, n);
    ProductNonNegative(bound, 1.0 / n);
  }

  lemma ScaleWithin(reach: real, way: real)
    requires reach >= 0.0 && way <= 1.5
    ensures Mul(reach, way) <= Mul(1.5, reach) && Mul(0.0 - reach, way) == 0.0 - Mul(reach, way)
  {
    ProductNonNegative(reach, 1.5 - way);
  }

  // --- filling the buffer ------------------------------------------------------------------------------

  /** The lattice point whose sample is the `p`-th in the buffer. */
  function PointOf(p: nat, size: nat): Index
    requires size >= 2
  {
    Index(p % size, (p / size) % size, p / size / size)
  }

  function Flat(i: nat, j: nat, k: nat, size: nat): nat { (k * size + j) * size + i }

  lemma MultiplesApart(d: int, n: nat)
    requires n > 0
    ensures d == 0 || d * n >= n || -(d * n) >= n
  {
    if d > 0 {
      assert d * n == (d - 1) * n + n;
    } else if d < 0 {
      assert -(d * n) == (-d - 1) * n + n;
    }
  }

  lemma DivModUnique(q: nat, r: nat, n: nat)
    requires r < n
    ensures (q * n + r) / n == q && (q * n + r) % n == r
  {
    var a := q * n + r;
    var d := a / n - q;
    assert a == (a / n) * n + a % n;
    assert d * n == (a / n) * n - q * n;
    MultiplesApart(d, n);
  }

  lemma FlatInverse(i: nat, j: nat, k: nat, size: nat)
    requires size >= 2 && i < size && j < size
    ensures PointOf(Flat(i, j, k, size), size) == Index(i, j, k)
  {
    DivModUnique(k * size + j, i, size);
    DivModUnique(k, j, size);
  }

  /** Sample `p` of the buffer holds the colour `c`. */
  ghost predicate SampleIs(data: seq<real>, p: nat, c: Rgb) {
    3 * p + 2 < |data| && data[3 * p] == c.x && data[3 * p + 1] == c.y && data[3 * p + 2] == c.z
  }

  ghost predicate HoldsGrid(data: seq<real>, n: nat, size: nat)
    requires size >= 2
  {
    forall p: nat :: p < n ==>
      var at := PointOf(p, size); SampleIs(data, p, GridPoint(at.x, at.y, at.z, size))
  }

  lemma GridNext(i: nat, size: nat)
    requires size >= 2
    ensures Grid(i + 1, size) == Grid(i, size) + Quot(1.0, size as real - 1.0)
    ensures Grid(0, size) == 0.0
  {
  }

  lemma FlatNext(i: nat, j: nat, k: nat, size: nat)
    ensures Flat(i + 1, j, k, size) == Flat(i, j, k, size) + 1
    ensures Flat(size, j, k, size) == Flat(0, j + 1, k, size)
    ensures Flat(0, size, k, size) == Flat(0, 0, k + 1, size)
    ensures Flat(0, 0, 0, size) == 0
  {
    assert (k * size + j + 1) * size == (k * size + j) * size + size;
    assert (k + 1) * size == k * size + size;
  }

  lemma FlatBound(i: nat, j: nat, k: nat, size: nat)
    requires i < size && j < size && k < size
    ensures Flat(i, j, k, size) < Flat(0, 0, size, size)
  {
    RowBound(j, k, size);
    var row := k * size + j;
    MulMonotone(row + 1, size * size, size);
    assert (row + 1) * size == row * size + size;
  }

  lemma MulMonotone(a: int, b: int, n: nat)
    requires a <= b
    ensures a * n <= b * n
  {
    assert b * n == a * n + (b - a) * n;
  }

  /** Storing one sample keeps those before it. */
  lemma GridStored(data: seq<real>, p: nat, size: nat, c: Rgb)
    requires size >= 2 && 3 * p + 2 < |data| && HoldsGrid(data, p, size)
    requires var at := PointOf(p, size); c == GridPoint(at.x, at.y, at.z, size)
    ensures HoldsGrid(data[3 * p := c.x][3 * p + 1 := c.y][3 * p + 2 := c.z], p + 1, size)
  {
    hide PointOf, GridPoint;
  }

  /** The triple loop: sample `i + (j + k * size) * size` is the lattice point `(i, j, k)`. */
  method SampleLutInput(data: array<real>, size: nat)
    requires size >= 2 && data.Length == 3 * Flat(0, 0, size, size)
    modifies data
    ensures HoldsGrid(data[..], Flat(0, 0, size, size), size)
  {
    hide Grid, Quot, Flat, PointOf, HoldsGrid, SampleIs;
    var step := Quot(1.0, size as real - 1.0);
    var index := 0;
    var k, z := 0, 0.0;
    FlatNext(0, 0, 0, size);
    GridNext(0, size);
    HoldsNothing(data[..], size);
    while k < size
      invariant k <= size && z == Grid(k, size)
      invariant index == 3 * Flat(0, 0, k, size)
      invariant HoldsGrid(data[..], Flat(0, 0, k, size), size)
    {
      var j, y := 0, 0.0;
      while j < size
        invariant j <= size && y == Grid(j, size)
        invariant index == 3 * Flat(0, j, k, size)
        invariant HoldsGrid(data[..], Flat(0, j, k, size), size)
      {
        var i, x := 0, 0.0;
        while i < size
          invariant i <= size && x == Grid(i, size)
          invariant index == 3 * Flat(i, j, k, size)
          invariant HoldsGrid(data[..], Flat(i, j, k, size), size)
        {
          FlatBound(i, j, k, size);
          FlatInverse(i, j, k, size);
          FlatNext(i, j, k, size);
          ghost var before := data[..];
          GridStored(before, Flat(i, j, k, size), size, Rgb(x, y, z));
          data[index] := x;
          data[index + 1] := y;
          data[index + 2] := z;
          assert data[..] == before[index := x][index + 1 := y][index + 2 := z];
          index := index + 3;
          GridNext(i, size);
          i, x := i + 1, x + step;
        }
        FlatNext(size, j, k, size);
        GridNext(j, size);
        j, y := j + 1, y + step;
      }
      FlatNext(0, size, k, size);
      GridNext(k, size);
      k, z := k + 1, z + step;
    }
  }

  lemma HoldsNothing(data: seq<real>, size: nat)
    requires size >= 2
    ensures HoldsGrid(data, 0, size)
  {
  }

  /** The transform of a colour state pair, one channel at a time. */
  datatype Transform = Transform(r: Rgb -> real, g: Rgb -> real, b: Rgb -> real) {
    function Channel(c: nat): Rgb -> real
      requires c < 3
    {
      if c == 0 then r else if c == 1 then g else b
    }
  }

  /** Replaces every sample by its image. */
  method TransformSamples(data: array<real>, n: nat, f: Transform, ghost size: nat)
    requires size >= 2 && data.Length == 3 * n && HoldsGrid(data[..], n, size)
    modifies data
    ensures forall p: nat, c: nat :: p < n && c < 3 ==>
              var at := PointOf(p, size);
              data[3 * p + c] == f.Channel(c)(GridPoint(at.x, at.y, at.z, size))
  {
    hide PointOf, GridPoint;
    for m := 0 to n
      invariant forall p: nat, c: nat :: p < m && c < 3 ==>
                  var at := PointOf(p, size);
                  data[3 * p + c] == f.Channel(c)(GridPoint(at.x, at.y, at.z, size))
      invariant forall q :: 3 * m <= q < data.Length ==> data[q] == old(data[..])[q]
    {
      ghost var at := PointOf(m, size);
      assert SampleIs(old(data[..]), m, GridPoint(at.x, at.y, at.z, size));
      var color := Rgb(data[3 * m], data[3 * m + 1], data[3 * m + 2]);
      data[3 * m] := f.r(color);
      data[3 * m + 1] := f.g(color);
      data[3 * m + 2] := f.b(color);
    }
  }

  /** The uploaded texture: row `v` starts after `v` rows of `size` samples. */
  function Uploaded(data: seq<real>, size: nat, channel: nat): Texture {
    (u, v) =>
      var q := 3 * (v * size + u) + channel;
      if 0 <= q < |data| then data[q] else 0.0
  }

  /** Building the table: fill, transform, upload; every channel tabulates its transform. */
  method BuildLut(size: nat, f: Transform) returns (data: array<real>)
    requires size >= 2
    ensures fresh(data)
    ensures Tabulates(Uploaded(data[..], size, 0), size, f.r)
    ensures Tabulates(Uploaded(data[..], size, 1), size, f.g)
    ensures Tabulates(Uploaded(data[..], size, 2), size, f.b)
  {
    hide Tabulates, HoldsGrid, PointOf, GridPoint;
    var n := Flat(0, 0, size, size);
    data := new real[3 * n];
    SampleLutInput(data, size);
    TransformSamples(data, n, f, size);
    ghost var contents := data[..];
    forall c: nat | c < 3 ensures Tabulates(Uploaded(contents, size, c), size, f.Channel(c)) {
      forall p: nat | p < n
        ensures var at := PointOf(p, size);
                contents[3 * p + c] == f.Channel(c)(GridPoint(at.x, at.y, at.z, size))
      {
        assert contents[3 * p + c] == data[3 * p + c];
      }
      UploadedTabulates(contents, size, c, f.Channel(c));
    }
  }

  lemma UploadedTabulates(data: seq<real>, size: nat, c: nat, f: Rgb -> real)
    requires size >= 2 && c < 3 && |data| == 3 * Flat(0, 0, size, size)
    requires forall p: nat :: p < Flat(0, 0, size, size) ==>
               var at := PointOf(p, size);
               data[3 * p + c] == f(GridPoint(at.x, at.y, at.z, size))
    ensures Tabulates(Uploaded(data, size, c), size, f)
  {
    hide PointOf, GridPoint;
    forall i: nat, j: nat, k: nat | i < size && j < size && k < size
      ensures Uploaded(data, size, c)(i, RowOf(j, k, size)) == f(GridPoint(i, j, k, size))
    {
      FlatBound(i, j, k, size);
      FlatInverse(i, j, k, size);
      assert data[3 * Flat(i, j, k, size) + c] == f(GridPoint(i, j, k, size));
      assert RowOf(j, k, size) * size + i == Flat(i, j, k, size);
    }
  }
}
