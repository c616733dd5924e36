/** The simulation state of UefiMain in the UEFI heat demo (Heat2D.c, lines
    598-792): the two temperature grids A and B, the face conductivities, the
    boundary mode, the pause flag and the brush, with the key handling, the
    placement of the three heat sources, the brush stamp, the mapping of the
    pointer onto the grid, and one simulation step (sources, stencil into B,
    boundary on B, swap). Every temperature stays in [0, 65536]. */
module HeatSim {
  import opened Bits
  import opened Pixels
  import opened HeatField
  import opened Heatsink

  /** The program's grid. */
  const GridNX: int := 520
  const GridNY: int := 440

  /** SCAN_ESC of the UEFI console. */
  const ScanEsc: int := 0x17

  /** Brush temperatures: 1.0 and (INT32)(0.5f * 65536 + 0.5f),
      (INT32)(0.8f * 65536 + 0.5f). */
  const BrushHalf: int := 32768
  const BrushEightTenths: int := 52429

  /** EFI_INPUT_KEY. */
  datatype InputKey = InputKey(scanCode: int, unicodeChar: char)

  /** `bc = (bc + 1) % BC_COUNT`. */
  function NextMode(m: BoundaryMode): (n: BoundaryMode)
    ensures n != m
  {
    match m
    case DirichletCold => NeumannInsulated
    case NeumannInsulated => Mixed
    case Mixed => DirichletCold
  }

  /** Three presses of 'b' come back to the same mode. */
  lemma NextModeCycle(m: BoundaryMode)
    ensures NextMode(NextMode(NextMode(m))) == m
    ensures NextMode(NextMode(m)) != m
  {
  }

  /** The three heat sources: rectangles of the same size on the bottom rows
      of the copper base. */
  datatype Sources = Sources(s0x0: int, s1x0: int, s2x0: int, y0: int, w: int, h: int)

  /** Where UefiMain places the sources, given the base geometry. */
  function PlaceSources(g: HeatsinkGeom): Sources {
    var baseW := g.baseX1 - g.baseX0 + 1;
    var baseH := g.baseY1 - g.baseY0 + 1;
    var srcH := Clamp(baseH / 2, 2, baseH);
    var srcY0 := g.baseY1 - srcH + 1;
    var srcW := Clamp(baseW / 8, 10, baseW / 3);
    var gap := Clamp(baseW / 12, 6, baseW / 4);
    var mid := (g.baseX0 + g.baseX1) / 2;
    var s0x0 := mid - srcW / 2 - (srcW + gap);
    var s1x0 := mid - srcW / 2;
    var s2x0 := mid - srcW / 2 + (srcW + gap);
    var s0x0' := if s0x0 < g.baseX0 then g.baseX0 else s0x0;
    var s2x0' := if s2x0 + srcW - 1 > g.baseX1 then g.baseX1 - srcW + 1 else s2x0;
    Sources(s0x0', s1x0, s2x0', srcY0, srcW, srcH)
  }

  predicate RectOnBase(g: HeatsinkGeom, x0: int, y0: int, w: int, h: int) {
    g.baseX0 <= x0 && x0 + w - 1 <= g.baseX1 && g.baseY0 <= y0 && y0 + h - 1 == g.baseY1 && w >= 1 && h >= 1
  }

  /** On the program's 520 by 440 grid the three sources are 48 by 22 cells,
      lie on the base, end on its last row, and do not overlap. */
  lemma SourcesOnBase()
    ensures var g := BaseGeom(GridNX, GridNY);
      var s := PlaceSources(g);
      g == HeatsinkGeom(65, 454, 387, 430) &&
      s == Sources(155, 235, 315, 409, 48, 22) &&
      RectOnBase(g, s.s0x0, s.y0, s.w, s.h) && RectOnBase(g, s.s1x0, s.y0, s.w, s.h) &&
      RectOnBase(g, s.s2x0, s.y0, s.w, s.h) &&
      s.s0x0 + s.w <= s.s1x0 && s.s1x0 + s.w <= s.s2x0
  {
  }

  /** The pointer-to-grid mapping: p * n / draw in 64 bits (C division),
      the divisor being the drawn extent or 1, clamped to [0, n-1]. */
  function GridCoord(p: int, n: int, draw: int): (g: int)
    requires n >= 1
    ensures 0 <= g <= n - 1
  {
    Clamp(TruncDiv(p * n, if draw > 0 then draw else 1), 0, n - 1)
  }

  /** A pointer inside the drawn area lands on the grid cell drawn under it:
      g cells of width draw/n start at or before p and the next one after. */
  lemma GridCoordCell(p: int, n: int, draw: int)
    requires n >= 1 && 0 <= p < draw
    ensures var g := GridCoord(p, n, draw); g * draw <= p * n < (g + 1) * draw
  {
    ProductBelow(p, n, draw);
    CellOf(p * n, draw, n);
    NextMultiple(GridCoord(p, n, draw), draw);
  }

  lemma ProductBelow(p: int, n: int, draw: int)
    requires n >= 1 && 0 <= p < draw
    ensures 0 <= p * n < n * draw
  {
    MulMonotone(draw, p + 1, n);
  }

  /** 0 <= a < n * d puts a in cell a / d of n cells of width d. */
  lemma CellOf(a: int, d: int, n: int)
    requires n >= 1 && d > 0 && 0 <= a < n * d
    ensures 0 <= a / d <= n - 1 && a / d * d <= a < a / d * d + d
  {
    DivBounds(a, d, n - 1);
  }

  lemma NextMultiple(q: int, d: int)
    ensures (q + 1) * d == q * d + d
  {
  }

  /** The drawn extent along one axis: NX cells of max(Width/NX, 1) pixels,
      cut at the screen edge. */
  function DrawExtent(screen: int, n: int): (d: int)
    requires n >= 1 && screen >= 1
    ensures 1 <= d <= screen
  {
    var cell := if screen / n < 1 then 1 else screen / n;
    MulMonotone(cell, 1, n);
    if n * cell > screen then screen else n * cell
  }

  predicate GridInRange(T: array2<i32>)
    reads T
  {
    CellsInRange(T)
  }

  class HeatState {
    const NX: int
    const NY: int
    var A: array2<i32>
    var B: array2<i32>
    const Kx: array2<u16>
    const Ky: array2<u16>
    const sources: Sources
    var bc: BoundaryMode
    var paused: bool
    var brushRad: int
    var brushTempQ: int
    var dirty: bool

    ghost predicate Valid()
      reads this, A, B
    {
      NX >= 3 && NY >= 3 &&
      A.Length0 == NY && A.Length1 == NX && B.Length0 == NY && B.Length1 == NX &&
      Kx.Length0 == NY && Kx.Length1 == NX && Ky.Length0 == NY && Ky.Length1 == NX &&
      A != B && Kx != Ky &&
      CellsInRange(A) && CellsInRange(B) &&
      IsQ16Temp(brushTempQ)
    }

    /** The state after setup: zeroed grids, the heatsink's face
        conductivities, Dirichlet boundary, running, brush of NX/70 cells at
        1.0. */
    constructor(NX: int, NY: int)
      requires NX >= 16 && NY >= 3
      ensures Valid() && fresh(A) && fresh(B)
      ensures this.NX == NX && this.NY == NY
      ensures forall j, i :: OnGrid(NY, NX, j, i) ==> A[j, i] == 0 && B[j, i] == 0
      ensures bc == DirichletCold && !paused && brushRad == NX / 70 && brushTempQ == Q16One && dirty
      ensures sources == PlaceSources(BaseGeom(NX, NY))
      ensures forall j, i :: OnGrid(NY, NX, j, i) ==>
        Kx[j, i] == (if i < NX - 1 then KFaceHarmonic(CombK(NX, NY, j, i), CombK(NX, NY, j, i + 1)) else 0)
      ensures forall j, i :: OnGrid(NY, NX, j, i) ==>
        Ky[j, i] == (if j < NY - 1 then KFaceHarmonic(CombK(NX, NY, j, i), CombK(NX, NY, j + 1, i)) else 0)
    {
      this.NX := NX;
      this.NY := NY;
      var kx, ky, g := CombFaceK(NX, NY);
      var a := new i32[NY, NX]((j, i) => 0);
      var b := new i32[NY, NX]((j, i) => 0);
      A := a;
      B := b;
      Kx := kx;
      Ky := ky;
      sources := PlaceSources(g);
      bc := DirichletCold;
      paused := false;
      brushRad := NX / 70;
      brushTempQ := Q16One;
      dirty := true;
    }

    /** One key of the key loop. ESC ends the program (quit) and changes
        nothing; the other keys change exactly what the source's branch
        changes and mark the frame dirty; any other key is ignored. */
    method HandleKey(key: InputKey) returns (quit: bool)
      requires Valid()
      modifies this, A, B
      ensures Valid() && A == old(A) && B == old(B)
      ensures quit <==> key.scanCode == ScanEsc
      ensures var c := key.unicodeChar;
        var known := c in {' ', 'r', 'R', 'c', 'C', 'b', 'B', '+', '=', '-', '_', '1', '2', '3'};
        dirty == (if quit || !known then old(dirty) else true)
      ensures var c := key.unicodeChar;
        paused == (if !quit && c == ' ' then !old(paused) else old(paused))
      ensures var c := key.unicodeChar;
        bc == (if !quit && (c == 'b' || c == 'B') then NextMode(old(bc)) else old(bc))
      ensures var c := key.unicodeChar;
        brushRad == (if quit then old(brushRad)
                     else if c == '+' || c == '=' then Clamp(old(brushRad) + 2, 2, NX / 8)
                     else if c == '-' || c == '_' then Clamp(old(brushRad) - 2, 2, NX / 8)
                     else old(brushRad))
      ensures var c := key.unicodeChar;
        brushTempQ == (if quit then old(brushTempQ)
                       else if c == '1' then BrushHalf
                       else if c == '2' then BrushEightTenths
                       else if c == '3' then Q16One
                       else old(brushTempQ))
      ensures var c := key.unicodeChar;
        forall j, i :: OnGrid(NY, NX, j, i) ==>
          A[j, i] == (if !quit && c in {'r', 'R', 'c', 'C'} then 0 else old(A[j, i])) &&
          B[j, i] == (if !quit && c in {'r', 'R'} then 0 else old(B[j, i]))
    {
      if key.scanCode == ScanEsc {
        return true;
      }
      quit := false;
      var c := key.unicodeChar;
      if c == ' ' {
        paused := !paused;
        dirty := true;
      } else if c == 'r' || c == 'R' {
        ZeroGrid(A);
        ZeroGrid(B);
        dirty := true;
      } else if c == 'c' || c == 'C' {
        ZeroGrid(A);
        dirty := true;
      } else if c == 'b' || c == 'B' {
        bc := NextMode(bc);
        dirty := true;
      } else if c == '+' || c == '=' {
        brushRad := Clamp(brushRad + 2, 2, NX / 8);
        dirty := true;
      } else if c == '-' || c == '_' {
        brushRad := Clamp(brushRad - 2, 2, NX / 8);
        dirty := true;
      } else if c == '1' {
        brushTempQ := BrushHalf;
        dirty := true;
      } else if c == '2' {
        brushTempQ := BrushEightTenths;
        dirty := true;
      } else if c == '3' {
        brushTempQ := Q16One;
        dirty := true;
      }
    }

    /** The brush: a disk of the brush radius at grid cell (gx, gy), raised
        to the brush temperature. */
    method Brush(gx: int, gy: int)
      requires Valid()
      modifies this`dirty, A
      ensures Valid() && dirty
      ensures forall j, i :: OnGrid(NY, NX, j, i) ==>
        A[j, i] == if DiskStamped(NY, NX, gx, gy, brushRad, j, i) then Max(old(A[j, i]), brushTempQ)
                   else old(A[j, i])
    {
      StampDiskQ16(A, NX, NY, gx, gy, brushRad, brushTempQ);
      dirty := true;
    }

    /** The three sources, each raised to 1.0. */
    method StampSources()
      requires Valid()
      modifies A
      ensures Valid()
      ensures forall j, i :: OnGrid(NY, NX, j, i) ==>
        var s := sources;
        A[j, i] == if InRectBox(NY, NX, s.s0x0, s.y0, s.w, s.h, j, i) ||
                      InRectBox(NY, NX, s.s1x0, s.y0, s.w, s.h, j, i) ||
                      InRectBox(NY, NX, s.s2x0, s.y0, s.w, s.h, j, i)
                   then Q16One else old(A[j, i])
    {
      var s := sources;
      StampRectMaxQ16(A, NX, NY, s.s0x0, s.y0, s.w, s.h, Q16One);
      StampRectMaxQ16(A, NX, NY, s.s1x0, s.y0, s.w, s.h, Q16One);
      StampRectMaxQ16(A, NX, NY, s.s2x0, s.y0, s.w, s.h, Q16One);
    }

    /** The stencil into B, the boundary on B, then the swap: the new A is
        the old B's storage, holding in each cell the stencil value of the
        old A at the cell the boundary rule names (or 0). */
    method Diffuse()
      requires Valid()
      modifies this, B
      ensures Valid()
      ensures A == old(B) && B == old(A) && dirty
      ensures bc == old(bc) && paused == old(paused) && brushRad == old(brushRad) && brushTempQ == old(brushTempQ)
      ensures forall j, i :: OnGrid(NY, NX, j, i) ==>
        A[j, i] == (var r := BoundaryRule(bc, NY, NX, j, i);
                    if r.Zero? then 0 else old(StencilCell(A, Kx, Ky, r.j, r.i)))
    {
      Stencil(A, B, Kx, Ky, NX, NY);
      ApplyBoundaryQ16(B, NX, NY, bc);
      A, B := B, A;
      dirty := true;
    }

    /** Cell (j, i) of A once the three sources are raised to 1.0. */
    function Sourced(j: int, i: int): int
      requires A.Length0 == NY && A.Length1 == NX && OnGrid(NY, NX, j, i)
      reads this, A
    {
      if InSources(j, i) then Q16One else A[j, i]
    }

    predicate InSources(j: int, i: int) {
      var s := sources;
      InRectBox(NY, NX, s.s0x0, s.y0, s.w, s.h, j, i) ||
      InRectBox(NY, NX, s.s1x0, s.y0, s.w, s.h, j, i) ||
      InRectBox(NY, NX, s.s2x0, s.y0, s.w, s.h, j, i)
    }

    /** The stencil value of interior cell (j, i) over the grid with the
        sources raised: what one step computes there before the boundary. */
    function SimulatedCell(j: int, i: int): int
      requires A.Length0 == NY && A.Length1 == NX
      requires Kx.Length0 == Ky.Length0 == NY && Kx.Length1 == Ky.Length1 == NX
      requires 1 <= j < NY - 1 && 1 <= i < NX - 1
      reads this, A, Kx, Ky
    {
      StencilOut(Sourced(j, i), Sourced(j, i + 1), Sourced(j, i - 1), Sourced(j + 1, i), Sourced(j - 1, i),
        Kx[j, i], Kx[j, i - 1], Ky[j, i], Ky[j - 1, i])
    }

    /** A cell whose whole five-cell neighbourhood lies in the sources is at
        exactly 1.0 after the stencil, whatever the face conductivities. */
    lemma SourceCoreStaysHot(j: int, i: int)
      requires Valid() && 1 <= j < NY - 1 && 1 <= i < NX - 1
      requires InSources(j, i) && InSources(j, i + 1) && InSources(j, i - 1)
      requires InSources(j + 1, i) && InSources(j - 1, i)
      ensures SimulatedCell(j, i) == Q16One
    {
      StencilUniform(Q16One, Kx[j, i], Kx[j, i - 1], Ky[j, i], Ky[j - 1, i]);
    }

    /** The simulation part of one frame: nothing while paused; otherwise
        the sources, one stencil step into B, the boundary on B and the
        swap, so each cell of the new A is the boundary rule applied to the
        stencil of the old A with its sources at 1.0; the frame is dirty
        after a step. */
    method Simulate()
      requires Valid()
      modifies this, A, B
      ensures Valid()
      ensures bc == old(bc) && paused == old(paused) && brushRad == old(brushRad) && brushTempQ == old(brushTempQ)
      ensures dirty == (old(dirty) || !old(paused))
      ensures old(paused) ==> A == old(A) && B == old(B) && unchanged(A) && unchanged(B)
      ensures !old(paused) ==> A == old(B) && B == old(A)
      ensures !old(paused) ==> forall j, i :: OnGrid(NY, NX, j, i) ==>
        A[j, i] == (var r := BoundaryRule(bc, NY, NX, j, i);
                    if r.Zero? then 0 else old(SimulatedCell(r.j, r.i)))
    {
      if !paused {
        StampSources();
        StampedStencil();
        Diffuse();
      }
    }

    /** After StampSources, the stencil of every interior cell is the
        stencil of the grid before it with the sources raised. */
    twostate lemma StampedStencil()
      requires A == old(A) && A.Length0 == NY && A.Length1 == NX && unchanged(Kx, Ky)
      requires Kx.Length0 == Ky.Length0 == NY && Kx.Length1 == Ky.Length1 == NX
      requires forall j, i :: OnGrid(NY, NX, j, i) ==> A[j, i] == old(Sourced(j, i))
      ensures forall j, i :: 1 <= j < NY - 1 && 1 <= i < NX - 1 ==>
        StencilCell(A, Kx, Ky, j, i) == old(SimulatedCell(j, i))
    {
      forall j, i | 1 <= j < NY - 1 && 1 <= i < NX - 1
        ensures StencilCell(A, Kx, Ky, j, i) == old(SimulatedCell(j, i))
      {
        assert OnGrid(NY, NX, j, i) && OnGrid(NY, NX, j, i + 1) && OnGrid(NY, NX, j, i - 1);
        assert OnGrid(NY, NX, j + 1, i) && OnGrid(NY, NX, j - 1, i);
      }
    }
  }

  /** SetMem(T, size, 0). */
  method ZeroGrid(T: array2<i32>)
    modifies T
    ensures forall j, i :: 0 <= j < T.Length0 && 0 <= i < T.Length1 ==> T[j, i] == 0
  {
    for j := 0 to T.Length0
      invariant forall j', i' :: 0 <= j' < j && 0 <= i' < T.Length1 ==> T[j', i'] == 0
    {
      for i := 0 to T.Length1
        invariant forall j', i' :: 0 <= i' < T.Length1 && (0 <= j' < j || (j' == j && i' < i)) ==> T[j', i'] == 0
      {
        T[j, i] := 0;
      }
    }
  }
}
