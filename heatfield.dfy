/** The temperature field of the UEFI heat demo (Heat2D.c): the three
    boundary modes (lines 145-187), max-stamping of a disk and of a rectangle
    (lines 190-224) and the fixed-point stencil update of the main loop
    (lines 756-792). A grid of NX columns and NY rows that the source stores
    row-major as T[j*NX + i] is an array2 T with T[j, i]; the two are the
    same cells for 0 <= i < NX. Temperatures are Q16.16: 65536 is 1.0. */
module HeatField {
  import opened Bits
  import opened Numerals
  import opened Pixels

  /** BOUNDARY_MODE. Any value other than the first two behaves as Mixed in
      the source; the program only ever holds these three. */
  datatype BoundaryMode = DirichletCold | NeumannInsulated | Mixed

  predicate OnGrid(NY: int, NX: int, j: int, i: int) {
    0 <= j < NY && 0 <= i < NX
  }

  predicate IsBorder(NY: int, NX: int, j: int, i: int) {
    j == 0 || j == NY - 1 || i == 0 || i == NX - 1
  }

  /** The grid sizes each mode's accesses stay inside: the Dirichlet loops
      need a nonempty grid, the other two modes read the cells one step in
      from every border, which are interior cells once both sizes are 3 or
      more (the program's grid is 520 by 440). */
  predicate BoundaryFits(mode: BoundaryMode, NY: int, NX: int) {
    if mode == DirichletCold then NY >= 1 && NX >= 1 else NY >= 3 && NX >= 3
  }

  /** Where a cell's value comes from after ApplyBoundaryQ16: zero, or the
      earlier value of cell (j, i). */
  datatype CellRule = Zero | CopyFrom(j: int, i: int)

  /** The index one step inward from a border coordinate. */
  function Inward(k: int, n: int): int {
    if k == 0 then 1 else if k == n - 1 then n - 2 else k
  }

  /** The value ApplyBoundaryQ16 leaves in cell (j, i), as a rule. */
  function BoundaryRule(mode: BoundaryMode, NY: int, NX: int, j: int, i: int): (r: CellRule)
    requires BoundaryFits(mode, NY, NX) && OnGrid(NY, NX, j, i)
    // interior cells are never changed
    ensures !IsBorder(NY, NX, j, i) ==> r == CopyFrom(j, i)
    // whatever is copied comes from an interior cell
    ensures r.CopyFrom? ==> OnGrid(NY, NX, r.j, r.i) && !IsBorder(NY, NX, r.j, r.i)
    // Dirichlet: exactly the border is zeroed
    ensures mode == DirichletCold ==> (r == Zero <==> IsBorder(NY, NX, j, i))
    // Neumann: nothing is zeroed; each border cell takes its inward
    // neighbour, a corner its diagonal neighbour
    ensures mode == NeumannInsulated ==> r.CopyFrom? && -1 <= r.j - j <= 1 && -1 <= r.i - i <= 1
    ensures mode == NeumannInsulated && IsBorder(NY, NX, j, i) ==> r != CopyFrom(j, i)
    ensures mode == NeumannInsulated && (i == 0 || i == NX - 1) && (j == 0 || j == NY - 1) ==>
      r.j != j && r.i != i
    // Mixed: exactly the left and right columns (corners included) are
    // zeroed; the rest of the top and bottom rows take the row inward
    ensures mode == Mixed ==> (r == Zero <==> i == 0 || i == NX - 1)
    ensures mode == Mixed && r.CopyFrom? ==> r.i == i && -1 <= r.j - j <= 1
  {
    match mode
    case DirichletCold => if IsBorder(NY, NX, j, i) then Zero else CopyFrom(j, i)
    case NeumannInsulated => CopyFrom(Inward(j, NY), Inward(i, NX))
    case Mixed => if i == 0 || i == NX - 1 then Zero else CopyFrom(Inward(j, NY), i)
  }

  /** Applying the boundary twice is applying it once: every cell's source is
      a cell that keeps its own value. */
  lemma BoundaryIdempotent(mode: BoundaryMode, NY: int, NX: int, j: int, i: int)
    requires BoundaryFits(mode, NY, NX) && OnGrid(NY, NX, j, i)
    ensures var r := BoundaryRule(mode, NY, NX, j, i);
      r.CopyFrom? ==> BoundaryRule(mode, NY, NX, r.j, r.i) == r
  {
  }

  /** ApplyBoundaryQ16: every cell takes the value its rule names, read
      from the grid as it was on entry. */
  method ApplyBoundaryQ16(T: array2<i32>, NX: int, NY: int, mode: BoundaryMode)
    requires T.Length0 == NY && T.Length1 == NX && BoundaryFits(mode, NY, NX)
    modifies T
    ensures forall j, i :: OnGrid(NY, NX, j, i) ==>
      T[j, i] == (var r := BoundaryRule(mode, NY, NX, j, i); if r.Zero? then 0 else old(T[r.j, r.i]))
  {
    if mode == DirichletCold {
      ZeroBorder(T, NX, NY);
    } else if mode == NeumannInsulated {
      InsulateBorder(T, NX, NY);
    } else {
      MixedBorder(T, NX, NY);
    }
  }

  /** The Dirichlet branch: top and bottom rows, then left and right columns. */
  method ZeroBorder(T: array2<i32>, NX: int, NY: int)
    requires T.Length0 == NY && T.Length1 == NX && NY >= 1 && NX >= 1
    modifies T
    ensures forall j, i :: OnGrid(NY, NX, j, i) ==>
      T[j, i] == if IsBorder(NY, NX, j, i) then 0 else old(T[j, i])
  {
    for i := 0 to NX
      invariant forall j', i' :: OnGrid(NY, NX, j', i') ==>
        T[j', i'] == if (j' == 0 || j' == NY - 1) && i' < i then 0 else old(T[j', i'])
    {
      T[0, i] := 0;
      T[NY - 1, i] := 0;
    }
    for j := 0 to NY
      invariant forall j', i' :: OnGrid(NY, NX, j', i') ==>
        T[j', i'] == if j' == 0 || j' == NY - 1 || ((i' == 0 || i' == NX - 1) && j' < j) then 0
                     else old(T[j', i'])
    {
      T[j, 0] := 0;
      T[j, NX - 1] := 0;
    }
  }

  /** The Neumann branch: edges from their inward neighbours, then the
      corners from their diagonal neighbours. */
  method InsulateBorder(T: array2<i32>, NX: int, NY: int)
    requires T.Length0 == NY && T.Length1 == NX && NY >= 3 && NX >= 3
    modifies T
    ensures forall j, i :: OnGrid(NY, NX, j, i) ==> T[j, i] == old(T[Inward(j, NY), Inward(i, NX)])
  {
    for i := 1 to NX - 1
      invariant forall j', i' :: OnGrid(NY, NX, j', i') ==>
        T[j', i'] == if (j' == 0 || j' == NY - 1) && 1 <= i' < i then old(T[Inward(j', NY), i'])
                     else old(T[j', i'])
    {
      T[0, i] := T[1, i];
      T[NY - 1, i] := T[NY - 2, i];
    }
    for j := 1 to NY - 1
      invariant forall j', i' :: OnGrid(NY, NX, j', i') ==>
        T[j', i'] == if (j' == 0 || j' == NY - 1) && 1 <= i' < NX - 1 then old(T[Inward(j', NY), i'])
                     else if (i' == 0 || i' == NX - 1) && 1 <= j' < j then old(T[j', Inward(i', NX)])
                     else old(T[j', i'])
    {
      T[j, 0] := T[j, 1];
      T[j, NX - 1] := T[j, NX - 2];
    }
    T[0, 0] := T[1, 1];
    T[0, NX - 1] := T[1, NX - 2];
    T[NY - 1, 0] := T[NY - 2, 1];
    T[NY - 1, NX - 1] := T[NY - 2, NX - 2];
  }

  /** The mixed branch: left and right columns zeroed, top and bottom rows
      from the row inward, then the corners zeroed. */
  method MixedBorder(T: array2<i32>, NX: int, NY: int)
    requires T.Length0 == NY && T.Length1 == NX && NY >= 3 && NX >= 3
    modifies T
    ensures forall j, i :: OnGrid(NY, NX, j, i) ==>
      T[j, i] == if i == 0 || i == NX - 1 then 0 else old(T[Inward(j, NY), i])
  {
    for j := 0 to NY
      invariant forall j', i' :: OnGrid(NY, NX, j', i') ==>
        T[j', i'] == if (i' == 0 || i' == NX - 1) && j' < j then 0 else old(T[j', i'])
    {
      T[j, 0] := 0;
      T[j, NX - 1] := 0;
    }
    for i := 1 to NX - 1
      invariant forall j', i' :: OnGrid(NY, NX, j', i') ==>
        T[j', i'] == if i' == 0 || i' == NX - 1 then 0
                     else if (j' == 0 || j' == NY - 1) && i' < i then old(T[Inward(j', NY), i'])
                     else old(T[j', i'])
    {
      T[0, i] := T[1, i];
      T[NY - 1, i] := T[NY - 2, i];
    }
    T[0, 0] := 0;
    T[0, NX - 1] := 0;
    T[NY - 1, 0] := 0;
    T[NY - 1, NX - 1] := 0;
  }

  // ---------------------------------------------------------------------
  // Stamping

  function Max(a: int, b: int): (m: int)
    ensures m >= a && m >= b && (m == a || m == b)
  {
    if b > a then b else a
  }

  /** The box StampDiskQ16 scans: the disk's bounding box with each bound
      clamped into the grid. */
  predicate InDiskBox(NY: int, NX: int, cx: int, cy: int, rad: int, j: int, i: int) {
    Clamp(cy - rad, 0, NY - 1) <= j <= Clamp(cy + rad, 0, NY - 1) &&
    Clamp(cx - rad, 0, NX - 1) <= i <= Clamp(cx + rad, 0, NX - 1)
  }

  predicate InDisk(cx: int, cy: int, rad: int, j: int, i: int) {
    (i - cx) * (i - cx) + (j - cy) * (j - cy) <= rad * rad
  }

  /** The cells StampDiskQ16 raises. */
  predicate DiskStamped(NY: int, NX: int, cx: int, cy: int, rad: int, j: int, i: int) {
    InDiskBox(NY, NX, cx, cy, rad, j, i) && InDisk(cx, cy, rad, j, i)
  }

  /** StampDiskQ16: each cell of the disk inside the grid becomes the larger
      of its value and valQ16; every other cell keeps its value. */
  method StampDiskQ16(T: array2<i32>, NX: int, NY: int, cx: int, cy: int, rad: int, valQ16: i32)
    requires T.Length0 == NY && T.Length1 == NX && NY >= 1 && NX >= 1
    modifies T
    ensures forall j, i :: OnGrid(NY, NX, j, i) ==>
      T[j, i] == if DiskStamped(NY, NX, cx, cy, rad, j, i) then Max(old(T[j, i]), valQ16) else old(T[j, i])
    ensures forall j, i :: OnGrid(NY, NX, j, i) ==> T[j, i] >= old(T[j, i])
  {
    var r2 := rad * rad;
    var y0 := Clamp(cy - rad, 0, NY - 1);
    var y1 := Clamp(cy + rad, 0, NY - 1);
    var x0 := Clamp(cx - rad, 0, NX - 1);
    var x1 := Clamp(cx + rad, 0, NX - 1);
    var j := y0;
    while j <= y1
      invariant y0 <= j <= Max(y0, y1 + 1)
      invariant forall j', i' :: OnGrid(NY, NX, j', i') ==>
        T[j', i'] == if j' < j && DiskStamped(NY, NX, cx, cy, rad, j', i') then Max(old(T[j', i']), valQ16)
                     else old(T[j', i'])
    {
      var dy := j - cy;
      var i := x0;
      while i <= x1
        invariant x0 <= i <= Max(x0, x1 + 1)
        invariant forall j', i' :: OnGrid(NY, NX, j', i') ==>
          T[j', i'] == if (j' < j || (j' == j && i' < i)) && DiskStamped(NY, NX, cx, cy, rad, j', i')
                       then Max(old(T[j', i']), valQ16)
                       else old(T[j', i'])
      {
        var dx := i - cx;
        if dx * dx + dy * dy <= r2 {
          if valQ16 > T[j, i] {
            T[j, i] := valQ16;
          }
        }
        i := i + 1;
      }
      j := j + 1;
    }
  }

  /** For a radius of zero or more the clamped box loses no cell of the
      disk, so the stamp covers exactly the disk's cells on the grid. */
  lemma DiskBoxCovers(NY: int, NX: int, cx: int, cy: int, rad: int, j: int, i: int)
    requires rad >= 0 && OnGrid(NY, NX, j, i)
    ensures DiskStamped(NY, NX, cx, cy, rad, j, i) <==> InDisk(cx, cy, rad, j, i)
  {
    if InDisk(cx, cy, rad, j, i) {
      assert (i - cx) * (i - cx) <= rad * rad && (j - cy) * (j - cy) <= rad * rad by {
        SquareNonNegative(i - cx);
        SquareNonNegative(j - cy);
      }
      SquareBound(i - cx, rad);
      SquareBound(j - cy, rad);
      ClampMonotone(cy - rad, j, 0, NY - 1);
      ClampMonotone(j, cy + rad, 0, NY - 1);
      ClampMonotone(cx - rad, i, 0, NX - 1);
      ClampMonotone(i, cx + rad, 0, NX - 1);
    }
  }

  lemma SquareNonNegative(d: int)
    ensures d * d >= 0
  {
    if d < 0 {
      MulMonotone(0, d, -d);
    }
  }

  /** d^2 <= r^2 with r >= 0 puts d within [-r, r]. */
  lemma SquareBound(d: int, r: int)
    requires r >= 0 && d * d <= r * r
    ensures -r <= d <= r
  {
    var a := if d < 0 then -d else d;
    assert a * a == d * d;
    if a > r {
      MulMonotone(a, r + 1, a);
      MulMonotone(a, r + 1, r + 1);
      assert false;
    }
  }

  /** The box StampRectMaxQ16 scans: [x0, x0 + w - 1] by [y0, y0 + h - 1]
      with every bound clamped into the grid. */
  predicate InRectBox(NY: int, NX: int, x0: int, y0: int, w: int, h: int, j: int, i: int) {
    Clamp(y0, 0, NY - 1) <= j <= Clamp(y0 + h - 1, 0, NY - 1) &&
    Clamp(x0, 0, NX - 1) <= i <= Clamp(x0 + w - 1, 0, NX - 1)
  }

  /** StampRectMaxQ16: each cell of the clamped box becomes the larger of its
      value and valQ16; every other cell keeps its value. */
  method StampRectMaxQ16(T: array2<i32>, NX: int, NY: int, x0: int, y0: int, w: int, h: int, valQ16: i32)
    requires T.Length0 == NY && T.Length1 == NX && NY >= 1 && NX >= 1
    modifies T
    ensures forall j, i :: OnGrid(NY, NX, j, i) ==>
      T[j, i] == if InRectBox(NY, NX, x0, y0, w, h, j, i) then Max(old(T[j, i]), valQ16) else old(T[j, i])
    ensures forall j, i :: OnGrid(NY, NX, j, i) ==> T[j, i] >= old(T[j, i])
  {
    var x1 := x0 + w - 1;
    var y1 := y0 + h - 1;
    var cx0 := Clamp(x0, 0, NX - 1);
    var cy0 := Clamp(y0, 0, NY - 1);
    var cx1 := Clamp(x1, 0, NX - 1);
    var cy1 := Clamp(y1, 0, NY - 1);
    var y := cy0;
    while y <= cy1
      invariant cy0 <= y <= Max(cy0, cy1 + 1)
      invariant forall j', i' :: OnGrid(NY, NX, j', i') ==>
        T[j', i'] == if j' < y && InRectBox(NY, NX, x0, y0, w, h, j', i') then Max(old(T[j', i']), valQ16)
                     else old(T[j', i'])
    {
      var x := cx0;
      while x <= cx1
        invariant cx0 <= x <= Max(cx0, cx1 + 1)
        invariant forall j', i' :: OnGrid(NY, NX, j', i') ==>
          T[j', i'] == if (j' < y || (j' == y && i' < x)) && InRectBox(NY, NX, x0, y0, w, h, j', i')
                       then Max(old(T[j', i']), valQ16)
                       else old(T[j', i'])
      {
        if valQ16 > T[y, x] {
          T[y, x] := valQ16;
        }
        x := x + 1;
      }
      y := y + 1;
    }
  }

  /** A rectangle inside the grid is stamped exactly on its own cells. */
  lemma RectInsideExact(NY: int, NX: int, x0: int, y0: int, w: int, h: int, j: int, i: int)
    requires 0 <= x0 && 1 <= w && x0 + w <= NX && 0 <= y0 && 1 <= h && y0 + h <= NY
    requires OnGrid(NY, NX, j, i)
    ensures InRectBox(NY, NX, x0, y0, w, h, j, i) <==> x0 <= i < x0 + w && y0 <= j < y0 + h
  {
  }

  /** A rectangle lying wholly to the right of the grid still stamps the last
      column over its rows, because each bound is clamped on its own. */
  lemma RectRightOfGridStampsEdge(NY: int, NX: int, x0: int, y0: int, w: int, h: int)
    requires NY >= 1 && NX >= 1 && x0 >= NX && w >= 1 && 0 <= y0 < NY && h >= 1
    ensures InRectBox(NY, NX, x0, y0, w, h, y0, NX - 1)
    ensures x0 > NX - 1
  {
  }

  /** Likewise below the grid: the last row is stamped. */
  lemma RectBelowGridStampsEdge(NY: int, NX: int, x0: int, y0: int, w: int, h: int)
    requires NY >= 1 && NX >= 1 && y0 >= NY && h >= 1 && 0 <= x0 < NX && w >= 1
    ensures InRectBox(NY, NX, x0, y0, w, h, NY - 1, x0)
    ensures y0 > NY - 1
  {
  }

  // ---------------------------------------------------------------------
  // The stencil update of the main loop

  /** baseR_Q16 = (INT32)(0.20f * 65536 + 0.5f): 13107.7 truncated. */
  const BaseRQ16: int := 13107

  /** One face's flux, k * (tN - tC) in INT64 shifted right by 16. The shift
      of a negative INT64 is arithmetic on the target compilers, which is
      floor division, as Dafny's `/` by a positive divisor is. */
  function Flux(k: int, d: int): int {
    (k * d) / 65536
  }

  /** The value the stencil writes for a cell with temperature tC, neighbours
      tR, tL, tD, tU and face conductivities kR, kL, kD, kU. */
  function StencilOut(tC: int, tR: int, tL: int, tD: int, tU: int, kR: int, kL: int, kD: int, kU: int): (out: int)
    ensures 0 <= out <= Q16One
  {
    var fluxSum := Flux(kR, tR - tC) + Flux(kL, tL - tC) + Flux(kD, tD - tC) + Flux(kU, tU - tC);
    var delta := (BaseRQ16 * fluxSum) / 65536;
    Clamp(tC + delta, 0, Q16One)
  }

  function Min5(a: int, b: int, c: int, d: int, e: int): (m: int)
    ensures m <= a && m <= b && m <= c && m <= d && m <= e
    ensures m == a || m == b || m == c || m == d || m == e
  {
    var x := if a < b then a else b;
    var y := if c < d then c else d;
    var z := if x < y then x else y;
    if z < e then z else e
  }

  function Max5(a: int, b: int, c: int, d: int, e: int): (m: int)
    ensures m >= a && m >= b && m >= c && m >= d && m >= e
    ensures m == a || m == b || m == c || m == d || m == e
  {
    Max(Max(Max(Max(a, b), c), d), e)
  }

  predicate IsQ16Temp(t: int) {
    0 <= t <= Q16One
  }

  predicate IsKFace(k: int) {
    0 <= k <= 65535
  }

  /** Discrete maximum principle: with Q16.16 temperatures in [0, 1] and
      Q0.16 face conductivities, the new value lies between the least and
      the greatest of the five cells it is computed from, so the clamp to
      [0, 65536] never changes it. */
  lemma StencilMaxPrinciple(tC: int, tR: int, tL: int, tD: int, tU: int, kR: int, kL: int, kD: int, kU: int)
    requires IsQ16Temp(tC) && IsQ16Temp(tR) && IsQ16Temp(tL) && IsQ16Temp(tD) && IsQ16Temp(tU)
    requires IsKFace(kR) && IsKFace(kL) && IsKFace(kD) && IsKFace(kU)
    ensures var out := StencilOut(tC, tR, tL, tD, tU, kR, kL, kD, kU);
      Min5(tC, tR, tL, tD, tU) <= out <= Max5(tC, tR, tL, tD, tU)
    ensures var fluxSum := Flux(kR, tR - tC) + Flux(kL, tL - tC) + Flux(kD, tD - tC) + Flux(kU, tU - tC);
      StencilOut(tC, tR, tL, tD, tU, kR, kL, kD, kU) == tC + (BaseRQ16 * fluxSum) / 65536
  {
    var lo := Min5(tC, tR, tL, tD, tU) - tC;
    var hi := Max5(tC, tR, tL, tD, tU) - tC;
    FluxBounds(kR, tR - tC, lo, hi);
    FluxBounds(kL, tL - tC, lo, hi);
    FluxBounds(kD, tD - tC, lo, hi);
    FluxBounds(kU, tU - tC, lo, hi);
    var fluxSum := Flux(kR, tR - tC) + Flux(kL, tL - tC) + Flux(kD, tD - tC) + Flux(kU, tU - tC);
    DeltaBounds(fluxSum, lo, hi);
  }

  /** A uniform neighbourhood is a fixed point. */
  lemma StencilUniform(t: int, kR: int, kL: int, kD: int, kU: int)
    requires IsQ16Temp(t) && IsKFace(kR) && IsKFace(kL) && IsKFace(kD) && IsKFace(kU)
    ensures StencilOut(t, t, t, t, t, kR, kL, kD, kU) == t
  {
    StencilMaxPrinciple(t, t, t, t, t, kR, kL, kD, kU);
  }

  /** A cell whose four faces do not conduct keeps its temperature. */
  lemma StencilInsulated(tC: int, tR: int, tL: int, tD: int, tU: int)
    requires IsQ16Temp(tC)
    ensures StencilOut(tC, tR, tL, tD, tU, 0, 0, 0, 0) == tC
  {
    assert Flux(0, tR - tC) == 0 && Flux(0, tL - tC) == 0 && Flux(0, tD - tC) == 0 && Flux(0, tU - tC) == 0;
  }

  lemma FluxBounds(k: int, d: int, lo: int, hi: int)
    requires 0 <= k <= 65536 && lo <= d <= hi && lo <= 0 <= hi
    ensures lo <= Flux(k, d) <= hi
  {
    MulMonotone(hi, d, k);
    MulMonotone(65536, k, hi);
    MulMonotone(d, lo, k);
    MulMonotone(65536, k, -lo);
    FloorDivMonotone(k * d, 65536 * hi, 65536);
    FloorDivMonotone(65536 * lo, k * d, 65536);
    LemmaModUnique(65536 * hi, 65536, hi, 0);
    LemmaModUnique(65536 * lo, 65536, lo, 0);
  }

  lemma DeltaBounds(s: int, lo: int, hi: int)
    requires 4 * lo <= s <= 4 * hi && lo <= 0 <= hi
    ensures lo <= (BaseRQ16 * s) / 65536 <= hi
  {
    MulMonotone(4 * hi, s, BaseRQ16);
    MulMonotone(s, 4 * lo, BaseRQ16);
    FloorDivMonotone(BaseRQ16 * s, 65536 * hi, 65536);
    FloorDivMonotone(65536 * lo, BaseRQ16 * s, 65536);
    LemmaModUnique(65536 * hi, 65536, hi, 0);
    LemmaModUnique(65536 * lo, 65536, lo, 0);
  }

  /** Floor division by a positive divisor is monotone for all integers. */
  lemma FloorDivMonotone(a: int, b: int, d: int)
    requires a <= b && d > 0
    ensures a / d <= b / d
  {
    var qa, qb := a / d, b / d;
    if qa > qb {
      MulMonotone(qa, qb + 1, d);
      assert false;
    }
  }

  predicate CellsInRange(A: array2<i32>)
    reads A
  {
    forall j, i :: 0 <= j < A.Length0 && 0 <= i < A.Length1 ==> IsQ16Temp(A[j, i])
  }

  /** The stencil value of interior cell (j, i) of A. */
  function StencilCell(A: array2<i32>, Kx: array2<u16>, Ky: array2<u16>, j: int, i: int): (out: int)
    requires Kx.Length0 == Ky.Length0 == A.Length0 && Kx.Length1 == Ky.Length1 == A.Length1
    requires 1 <= j < A.Length0 - 1 && 1 <= i < A.Length1 - 1
    reads A, Kx, Ky
    ensures IsQ16Temp(out)
  {
    StencilOut(A[j, i], A[j, i + 1], A[j, i - 1], A[j + 1, i], A[j - 1, i],
      Kx[j, i], Kx[j, i - 1], Ky[j, i], Ky[j - 1, i])
  }

  /** The hot loop: every interior cell of B gets the stencil value of A; the
      border of B is left as it was. The locals carry the C types, so the
      INT32 differences and INT64 products are proved not to overflow. */
  method Stencil(A: array2<i32>, B: array2<i32>, Kx: array2<u16>, Ky: array2<u16>, NX: int, NY: int)
    requires A.Length0 == NY && A.Length1 == NX && B.Length0 == NY && B.Length1 == NX
    requires Kx.Length0 == Ky.Length0 == NY && Kx.Length1 == Ky.Length1 == NX
    requires A != B && CellsInRange(A)
    modifies B
    ensures forall j, i :: OnGrid(NY, NX, j, i) ==>
      B[j, i] == if IsBorder(NY, NX, j, i) then old(B[j, i]) else StencilCell(A, Kx, Ky, j, i)
  {
    for j := 1 to Max(1, NY - 1)
      invariant forall j', i' :: OnGrid(NY, NX, j', i') ==>
        B[j', i'] == if IsBorder(NY, NX, j', i') || j' >= j then old(B[j', i']) else StencilCell(A, Kx, Ky, j', i')
    {
      for i := 1 to Max(1, NX - 1)
        invariant forall j', i' :: OnGrid(NY, NX, j', i') ==>
          B[j', i'] == if IsBorder(NY, NX, j', i') || j' > j || (j' == j && i' >= i) then old(B[j', i'])
                       else StencilCell(A, Kx, Ky, j', i')
      {
        var v := StencilAt(A, Kx, Ky, j, i);
        B[j, i] := v;
      }
    }
  }

  /** The loop body for one interior cell. */
  method StencilAt(A: array2<i32>, Kx: array2<u16>, Ky: array2<u16>, j: int, i: int) returns (v: i32)
    requires Kx.Length0 == Ky.Length0 == A.Length0 && Kx.Length1 == Ky.Length1 == A.Length1
    requires 1 <= j < A.Length0 - 1 && 1 <= i < A.Length1 - 1 && CellsInRange(A)
    ensures v == StencilCell(A, Kx, Ky, j, i)
  {
    var tC: i32 := A[j, i];
    var tR: i32 := A[j, i + 1];
    var tL: i32 := A[j, i - 1];
    var tD: i32 := A[j + 1, i];
    var tU: i32 := A[j - 1, i];
    var fluxR: i64 := FluxI64(Kx[j, i], tR - tC);
    var fluxL: i64 := FluxI64(Kx[j, i - 1], tL - tC);
    var fluxD: i64 := FluxI64(Ky[j, i], tD - tC);
    var fluxU: i64 := FluxI64(Ky[j - 1, i], tU - tC);
    var fluxSum: i64 := fluxR + fluxL + fluxD + fluxU;
    DeltaFits(fluxSum);
    var delta: i64 := (BaseRQ16 * fluxSum) / 65536;
    var out: i64 := tC + delta;
    if out < 0 {
      out := 0;
    }
    if out > Q16One {
      out := Q16One;
    }
    v := out as i32;
  }

  /** Flux with the C types: a UINT16 conductivity times an INT32 difference
      of two temperatures in [0, 65536], in INT64; the result is within
      [-65536, 65536]. */
  function FluxI64(k: u16, d: i32): (f: i64)
    requires -Q16One <= d <= Q16One
    ensures f == Flux(k, d) && -Q16One <= f <= Q16One
  {
    FluxBounds(k, d, -Q16One, Q16One);
    (k * d) / 65536
  }

  lemma DeltaFits(s: int)
    requires -4 * Q16One <= s <= 4 * Q16One
    ensures -TWO63 <= BaseRQ16 * s < TWO63
    ensures -Q16One <= (BaseRQ16 * s) / 65536 <= Q16One
  {
    DeltaBounds(s, -Q16One, Q16One);
    MulMonotone(4 * Q16One, s, BaseRQ16);
    MulMonotone(s, -4 * Q16One, BaseRQ16);
  }
}
