/** Material and conductivity of the UEFI heat demo (Heat2D.c, lines
    481-586): the heatsink mask (a copper base, 28 fins standing on it and a
    die block under it, in air), the harmonic mean of two cell
    conductivities and the face conductivities of the grid. Conductivities
    are Q0.16 in a UINT16: 65535 is 1.0. Grids are array2s with cell (j, i)
    at row j, column i, as in HeatField. */
module Heatsink {
  import opened Bits
  import opened Numerals
  import opened Pixels
  import opened HeatField

  /** k_air = (UINT16)(65535u / 100), k_cu = 65535. */
  const KAir: int := 655
  const KCu: int := 65535
  const FinCount: int := 28

  /** HEATSINK_GEOM: the copper base's column and row span. */
  datatype HeatsinkGeom = HeatsinkGeom(baseX0: int, baseX1: int, baseY0: int, baseY1: int)

  /** The base: NX/8 columns of margin on each side; NY/10 rows high, with
      its last row 10 rows above the bottom; its first row at 0 or below. */
  function BaseGeom(NX: int, NY: int): (g: HeatsinkGeom)
    requires NX >= 1 && NY >= 0
    ensures 0 <= g.baseX0 <= g.baseX1 < NX
    ensures g.baseY1 == NY - 10 && g.baseY0 >= 0
  {
    var marginX := NX / 8;
    var baseW := NX - 2 * marginX;
    var baseH := NY / 10;
    var baseY1 := NY - 10;
    var baseY0 := baseY1 - baseH + 1;
    HeatsinkGeom(marginX, marginX + baseW - 1, if baseY0 < 0 then 0 else baseY0, baseY1)
  }

  function BaseWidth(NX: int): int {
    NX - 2 * (NX / 8)
  }

  /** The rows the fins span: from max(baseY0 - NY/3, 2) down to baseY0. */
  function FinY0(NX: int, NY: int): int
    requires NX >= 1 && NY >= 0
  {
    var y0 := BaseGeom(NX, NY).baseY0 - NY / 3;
    if y0 < 2 then 2 else y0
  }

  /** Spacing of fin centres: baseW / 28, but at least 6. */
  function FinGap(NX: int): int {
    var gap := BaseWidth(NX) / FinCount;
    if gap < 6 then 6 else gap
  }

  /** Fin width: half the gap, but at least 3. */
  function FinWidth(NX: int): int {
    var w := FinGap(NX) / 2;
    if w < 3 then 3 else w
  }

  /** The columns of fin f, centred at baseX0 + f*gap + gap/2 and clamped
      into the base's columns. */
  function FinX0(NX: int, NY: int, f: int): int
    requires NX >= 1 && NY >= 0
  {
    var g := BaseGeom(NX, NY);
    var cx := g.baseX0 + f * FinGap(NX) + FinGap(NX) / 2;
    Clamp(cx - FinWidth(NX) / 2, g.baseX0, g.baseX1)
  }

  function FinX1(NX: int, NY: int, f: int): int
    requires NX >= 1 && NY >= 0
  {
    var g := BaseGeom(NX, NY);
    var cx := g.baseX0 + f * FinGap(NX) + FinGap(NX) / 2;
    Clamp(cx - FinWidth(NX) / 2 + FinWidth(NX) - 1, g.baseX0, g.baseX1)
  }

  predicate InBase(NX: int, NY: int, j: int, i: int)
    requires NX >= 1 && NY >= 0
  {
    var g := BaseGeom(NX, NY);
    g.baseY0 <= j <= g.baseY1 && g.baseX0 <= i <= g.baseX1
  }

  predicate InFin(NX: int, NY: int, f: int, j: int, i: int)
    requires NX >= 1 && NY >= 0
  {
    FinY0(NX, NY) <= j <= BaseGeom(NX, NY).baseY0 && FinX0(NX, NY, f) <= i <= FinX1(NX, NY, f)
  }

  /** Cell (j, i) is in one of fins 0 .. n-1. */
  predicate InFins(NX: int, NY: int, n: int, j: int, i: int)
    requires NX >= 1 && NY >= 0
    decreases n
  {
    n > 0 && (InFins(NX, NY, n - 1, j, i) || InFin(NX, NY, n - 1, j, i))
  }

  /** The die: baseW/6 columns centred on NX/2, baseH/2 rows from the row
      below the base, cut at the grid's last row. */
  predicate InDie(NX: int, NY: int, j: int, i: int)
    requires NX >= 1 && NY >= 0
  {
    var g := BaseGeom(NX, NY);
    var dieW := BaseWidth(NX) / 6;
    var dieH := (NY / 10) / 2;
    var dieX0 := NX / 2 - dieW / 2;
    var dieY0 := g.baseY1 + 1;
    var dieY1 := if dieY0 + dieH - 1 >= NY then NY - 1 else dieY0 + dieH - 1;
    dieY0 <= j <= dieY1 && dieX0 <= i <= dieX0 + dieW - 1
  }

  /** The copper cells of the mask. */
  predicate IsCopper(NX: int, NY: int, j: int, i: int)
    requires NX >= 1 && NY >= 0
  {
    InBase(NX, NY, j, i) || InFins(NX, NY, FinCount, j, i) || InDie(NX, NY, j, i)
  }

  /** Every fin stands on the base: it lies within the base's columns and
      reaches down to the base's first row. */
  lemma FinsOnBase(NX: int, NY: int, f: int, j: int, i: int)
    requires NX >= 1 && NY >= 0 && InFin(NX, NY, f, j, i)
    ensures BaseGeom(NX, NY).baseX0 <= i <= BaseGeom(NX, NY).baseX1
    ensures j <= BaseGeom(NX, NY).baseY0
  {
  }

  /** The die lies directly below the base. */
  lemma DieBelowBase(NX: int, NY: int, j: int, i: int)
    requires NX >= 1 && NY >= 0 && InDie(NX, NY, j, i)
    ensures j > BaseGeom(NX, NY).baseY1 && !InBase(NX, NY, j, i)
  {
  }

  /** Material code and conductivity agree everywhere: 1 and copper, or 0 and
      air. */
  predicate MaterialConsistent(Kcell: array2<u16>, Mat: array2<u8>, j: int, i: int)
    requires 0 <= j < Kcell.Length0 && 0 <= i < Kcell.Length1
    requires 0 <= j < Mat.Length0 && 0 <= i < Mat.Length1
    reads Kcell, Mat
  {
    (Mat[j, i] == 1 && Kcell[j, i] == KCu) || (Mat[j, i] == 0 && Kcell[j, i] == KAir)
  }

  /** Paint the cells of columns x0..x1 and rows y0..y1 copper. */
  method PaintCopper(Kcell: array2<u16>, Mat: array2<u8>, x0: int, x1: int, y0: int, y1: int)
    requires Kcell.Length0 == Mat.Length0 && Kcell.Length1 == Mat.Length1
    requires Kcell as object != Mat as object
    requires y0 > y1 || x0 > x1 || (0 <= y0 && y1 < Mat.Length0 && 0 <= x0 && x1 < Mat.Length1)
    modifies Kcell, Mat
    ensures forall j, i :: 0 <= j < Mat.Length0 && 0 <= i < Mat.Length1 ==>
      if y0 <= j <= y1 && x0 <= i <= x1 then Mat[j, i] == 1 && Kcell[j, i] == KCu
      else Mat[j, i] == old(Mat[j, i]) && Kcell[j, i] == old(Kcell[j, i])
  {
    var j := y0;
    while j <= y1
      invariant y0 <= j <= Max(y0, y1 + 1)
      invariant forall j', i' :: 0 <= j' < Mat.Length0 && 0 <= i' < Mat.Length1 ==>
        if y0 <= j' < j && x0 <= i' <= x1 then Mat[j', i'] == 1 && Kcell[j', i'] == KCu
        else Mat[j', i'] == old(Mat[j', i']) && Kcell[j', i'] == old(Kcell[j', i'])
    {
      var i := x0;
      while i <= x1
        invariant x0 <= i <= Max(x0, x1 + 1)
        invariant forall j', i' :: 0 <= j' < Mat.Length0 && 0 <= i' < Mat.Length1 ==>
          if (y0 <= j' < j && x0 <= i' <= x1) || (j' == j && x0 <= i' < i) then
            Mat[j', i'] == 1 && Kcell[j', i'] == KCu
          else Mat[j', i'] == old(Mat[j', i']) && Kcell[j', i'] == old(Kcell[j', i'])
      {
        Mat[j, i] := 1;
        Kcell[j, i] := KCu;
        i := i + 1;
      }
      j := j + 1;
    }
  }

  /** BuildHeatsinkCombMask_U16: every cell ends copper (Mat 1, k 65535)
      exactly where IsCopper holds and air (Mat 0, k 655) elsewhere; the
      base geometry is returned. */
  method BuildHeatsinkCombMask(Kcell: array2<u16>, Mat: array2<u8>, NX: int, NY: int) returns (g: HeatsinkGeom)
    requires Kcell.Length0 == NY && Kcell.Length1 == NX && Mat.Length0 == NY && Mat.Length1 == NX
    requires NX >= 1 && NY >= 0 && Kcell as object != Mat as object
    modifies Kcell, Mat
    ensures g == BaseGeom(NX, NY)
    ensures forall j, i :: OnGrid(NY, NX, j, i) ==>
      Mat[j, i] == (if IsCopper(NX, NY, j, i) then 1 else 0) &&
      Kcell[j, i] == (if IsCopper(NX, NY, j, i) then KCu else KAir)
  {
    for j := 0 to NY
      invariant forall j', i' :: OnGrid(NY, NX, j', i') && j' < j ==> Mat[j', i'] == 0 && Kcell[j', i'] == KAir
    {
      for i := 0 to NX
        invariant forall j', i' :: OnGrid(NY, NX, j', i') && (j' < j || (j' == j && i' < i)) ==>
          Mat[j', i'] == 0 && Kcell[j', i'] == KAir
      {
        Mat[j, i] := 0;
        Kcell[j, i] := KAir;
      }
    }

    g := BaseGeom(NX, NY);
    // copper base
    PaintCopper(Kcell, Mat, g.baseX0, g.baseX1, g.baseY0, g.baseY1);

    // fins
    var finY0 := FinY0(NX, NY);
    for f := 0 to FinCount
      invariant forall j, i :: OnGrid(NY, NX, j, i) ==>
        var c := InBase(NX, NY, j, i) || InFins(NX, NY, f, j, i);
        Mat[j, i] == (if c then 1 else 0) && Kcell[j, i] == (if c then KCu else KAir)
    {
      PaintCopper(Kcell, Mat, FinX0(NX, NY, f), FinX1(NX, NY, f), finY0, g.baseY0);
    }

    // die block under the base
    var dieW := BaseWidth(NX) / 6;
    var dieH := (NY / 10) / 2;
    var dieX0 := NX / 2 - dieW / 2;
    var dieX1 := dieX0 + dieW - 1;
    var dieY0 := g.baseY1 + 1;
    var dieY1 := dieY0 + dieH - 1;
    if dieY1 >= NY {
      dieY1 := NY - 1;
    }
    PaintCopper(Kcell, Mat, dieX0, dieX1, dieY0, dieY1);
  }

  // ---------------------------------------------------------------------
  // Face conductivities

  /** KFaceHarmonic_U16 as written: denom = k0 + k1 in UINT32 (no wrap), 0
      when both are 0; num = 2u * k0 * k1 in UINT32, which wraps modulo 2^32;
      the quotient is cast to UINT16. */
  function KFaceHarmonic(k0: u16, k1: u16): (k: u16)
    ensures k0 == 0 && k1 == 0 ==> k == 0
  {
    var denom := k0 + k1;
    if denom == 0 then 0
    else
      var num := ((2 * k0) % TWO32 * k1) % TWO32;
      (num / denom) % TWO16
  }

  /** The harmonic mean is symmetric. */
  lemma KFaceSymmetric(k0: u16, k1: u16)
    ensures KFaceHarmonic(k0, k1) == KFaceHarmonic(k1, k0)
  {
    var d := k0 + k1;
    if d != 0 {
      var n := ((2 * k0) % TWO32 * k1) % TWO32;
      var n' := ((2 * k1) % TWO32 * k0) % TWO32;
      assert n == n' by { KFaceNumeratorSymmetric(k0, k1); }
      assert KFaceHarmonic(k0, k1) == (n / d) % TWO16;
      assert KFaceHarmonic(k1, k0) == (n' / d) % TWO16;
    }
  }

  /** The wrapped UINT32 numerator does not depend on the order of the cells. */
  lemma KFaceNumeratorSymmetric(k0: u16, k1: u16)
    ensures ((2 * k0) % TWO32 * k1) % TWO32 == ((2 * k1) % TWO32 * k0) % TWO32
  {
    KFaceNumerator(k0, k1);
    KFaceNumerator(k1, k0);
    assert 2 * k0 * k1 == 2 * (k0 * k1) && 2 * k1 * k0 == 2 * (k1 * k0);
  }

  lemma KFaceNumerator(k0: u16, k1: u16)
    ensures ((2 * k0) % TWO32 * k1) % TWO32 == (2 * k0 * k1) % TWO32
  {
    LemmaModUnique(2 * k0, TWO32, 0, 2 * k0);
  }

  /** When 2*k0*k1 fits in 32 bits the result is floor(2*k0*k1 / (k0+k1)),
      which lies between the smaller and the larger conductivity. */
  lemma KFaceNoWrap(k0: u16, k1: u16)
    requires k0 + k1 > 0 && 2 * k0 * k1 < TWO32
    ensures KFaceHarmonic(k0, k1) == (2 * k0 * k1) / (k0 + k1)
    ensures Min(k0, k1) <= KFaceHarmonic(k0, k1) <= Max(k0, k1)
  {
    KFaceNumerator(k0, k1);
    LemmaModUnique(2 * k0 * k1, TWO32, 0, 2 * k0 * k1);
    HarmonicBounds(k0, k1);
    var q := (2 * k0 * k1) / (k0 + k1);
    LemmaModUnique(q, TWO16, 0, q);
  }

  function Min(a: int, b: int): int {
    if a < b then a else b
  }

  /** min(a, b) <= floor(2ab / (a+b)) <= max(a, b) for a + b > 0. */
  lemma HarmonicBounds(a: nat, b: nat)
    requires a + b > 0
    ensures Min(a, b) <= (2 * a * b) / (a + b) <= Max(a, b)
  {
    if a <= b {
      HarmonicOrdered(a, b);
    } else {
      HarmonicOrdered(b, a);
      assert 2 * a * b == 2 * b * a;
    }
  }

  lemma HarmonicOrdered(a: nat, b: nat)
    requires a <= b && a + b > 0
    ensures a <= (2 * a * b) / (a + b) <= b
  {
    var d := a + b;
    var n := 2 * a * b;
    HarmonicProducts(a, b);
    FloorDivMonotone(a * d, n, d);
    FloorDivMonotone(n, b * d, d);
    LemmaModUnique(a * d, d, a, 0);
    LemmaModUnique(b * d, d, b, 0);
  }

  /** a(a+b) <= 2ab <= b(a+b) for a <= b. */
  lemma HarmonicProducts(a: nat, b: nat)
    requires a <= b
    ensures a * (a + b) <= 2 * a * b <= b * (a + b)
  {
    MulMonotone(b, a, a);
    MulMonotone(b, a, b);
    assert a * (a + b) == a * a + a * b;
    assert b * (a + b) == a * b + b * b;
  }

  /** As written, a face between two copper cells wraps: 2 * 65535 * 65535
      mod 2^32 is 4294705154, and the face gets 32766, half of copper's
      conductivity, instead of 65535. */
  lemma KFaceCopperWraps()
    ensures 2 * KCu * KCu >= TWO32
    ensures KFaceHarmonic(KCu, KCu) == 32766
  {
    KFaceNumerator(KCu, KCu);
    assert (2 * KCu * KCu) % TWO32 == 4294705154;
  }

  /** The evidently intended harmonic mean, with the product in 64 bits. */
  function KFaceHarmonicWide(k0: u16, k1: u16): (k: u16)
    ensures k0 + k1 > 0 ==> k == (2 * k0 * k1) / (k0 + k1)
    ensures k0 + k1 > 0 ==> Min(k0, k1) <= k <= Max(k0, k1)
    ensures k0 + k1 == 0 ==> k == 0
  {
    if k0 + k1 == 0 then 0
    else
      HarmonicBounds(k0, k1);
      (2 * k0 * k1) / (k0 + k1)
  }

  /** The mean of equal conductivities is that conductivity: copper faces
      conduct like copper. */
  lemma KFaceWideSame(k: u16)
    ensures KFaceHarmonicWide(k, k) == k
  {
  }

  /** The two agree whenever the 32-bit product does not wrap. */
  lemma KFaceAgrees(k0: u16, k1: u16)
    requires 2 * k0 * k1 < TWO32
    ensures KFaceHarmonic(k0, k1) == KFaceHarmonicWide(k0, k1)
  {
    if k0 + k1 > 0 {
      KFaceNoWrap(k0, k1);
    }
  }

  /** The three face values of the air and copper mask. */
  lemma MaskFaceValues()
    ensures KFaceHarmonic(KAir, KAir) == KAir
    ensures KFaceHarmonic(KAir, KCu) == KFaceHarmonic(KCu, KAir) == 1297
    ensures KFaceHarmonic(KCu, KCu) == 32766
  {
    KFaceNoWrap(KAir, KAir);
    KFaceNoWrap(KAir, KCu);
    KFaceSymmetric(KAir, KCu);
    KFaceCopperWraps();
  }

  /** PrecomputeFaceK_U16: Kx holds the face towards the right neighbour
      (0 in the last column), Ky the face towards the neighbour below (0 in
      the last row), both by KFaceHarmonic_U16 as written. */
  method PrecomputeFaceK(Kcell: array2<u16>, Kx: array2<u16>, Ky: array2<u16>, NX: int, NY: int)
    requires Kcell.Length0 == Kx.Length0 == Ky.Length0 == NY
    requires Kcell.Length1 == Kx.Length1 == Ky.Length1 == NX
    requires Kx != Ky && Kx != Kcell && Ky != Kcell
    modifies Kx, Ky
    ensures forall j, i :: OnGrid(NY, NX, j, i) ==> Kx[j, i] == FaceRight(Kcell, j, i)
    ensures forall j, i :: OnGrid(NY, NX, j, i) ==> Ky[j, i] == FaceDown(Kcell, j, i)
  {
    for j := 0 to NY
      invariant forall j', i' :: OnGrid(NY, NX, j', i') && j' < j ==> Kx[j', i'] == FaceRight(Kcell, j', i')
      invariant forall j', i' :: OnGrid(NY, NX, j', i') && j' < j ==> Ky[j', i'] == FaceDown(Kcell, j', i')
    {
      for i := 0 to NX
        invariant forall j', i' :: OnGrid(NY, NX, j', i') && (j' < j || (j' == j && i' < i)) ==>
          Kx[j', i'] == FaceRight(Kcell, j', i')
        invariant forall j', i' :: OnGrid(NY, NX, j', i') && (j' < j || (j' == j && i' < i)) ==>
          Ky[j', i'] == FaceDown(Kcell, j', i')
      {
        if i < NX - 1 {
          Kx[j, i] := KFaceHarmonic(Kcell[j, i], Kcell[j, i + 1]);
        } else {
          Kx[j, i] := 0;
        }
        if j < NY - 1 {
          Ky[j, i] := KFaceHarmonic(Kcell[j, i], Kcell[j + 1, i]);
        } else {
          Ky[j, i] := 0;
        }
      }
    }
  }

  /** The conductivity of the face between cell (j, i) and its right
      neighbour; 0 in the last column. */
  function FaceRight(Kcell: array2<u16>, j: int, i: int): u16
    requires 0 <= j < Kcell.Length0 && 0 <= i < Kcell.Length1
    reads Kcell
  {
    if i < Kcell.Length1 - 1 then KFaceHarmonic(Kcell[j, i], Kcell[j, i + 1]) else 0
  }

  /** The face between cell (j, i) and the cell below; 0 in the last row. */
  function FaceDown(Kcell: array2<u16>, j: int, i: int): u16
    requires 0 <= j < Kcell.Length0 && 0 <= i < Kcell.Length1
    reads Kcell
  {
    if j < Kcell.Length0 - 1 then KFaceHarmonic(Kcell[j, i], Kcell[j + 1, i]) else 0
  }

  /** The conductivity of cell (j, i) in the comb mask. */
  function CombK(NX: int, NY: int, j: int, i: int): (k: u16)
    requires NX >= 1 && NY >= 0
    ensures k == KCu <==> IsCopper(NX, NY, j, i)
  {
    if IsCopper(NX, NY, j, i) then KCu else KAir
  }

  /** The conductivity set-up of the program: the comb mask into fresh
      Kcell and Mat grids, then the face conductivities into fresh Kx and
      Ky; only Kx, Ky and the geometry are kept. */
  method CombFaceK(NX: int, NY: int) returns (Kx: array2<u16>, Ky: array2<u16>, g: HeatsinkGeom)
    requires NX >= 1 && NY >= 0
    ensures fresh(Kx) && fresh(Ky) && Kx != Ky
    ensures Kx.Length0 == NY && Kx.Length1 == NX && Ky.Length0 == NY && Ky.Length1 == NX
    ensures g == BaseGeom(NX, NY)
    ensures forall j, i :: OnGrid(NY, NX, j, i) ==>
      Kx[j, i] == (if i < NX - 1 then KFaceHarmonic(CombK(NX, NY, j, i), CombK(NX, NY, j, i + 1)) else 0)
    ensures forall j, i :: OnGrid(NY, NX, j, i) ==>
      Ky[j, i] == (if j < NY - 1 then KFaceHarmonic(CombK(NX, NY, j, i), CombK(NX, NY, j + 1, i)) else 0)
  {
    var kcell := new u16[NY, NX]((j, i) => 0);
    var mat := new u8[NY, NX]((j, i) => 0);
    Kx := new u16[NY, NX]((j, i) => 0);
    Ky := new u16[NY, NX]((j, i) => 0);
    g := BuildHeatsinkCombMask(kcell, mat, NX, NY);
    PrecomputeFaceK(kcell, Kx, Ky, NX, NY);
    forall j, i | OnGrid(NY, NX, j, i)
      ensures Kx[j, i] == (if i < NX - 1 then KFaceHarmonic(CombK(NX, NY, j, i), CombK(NX, NY, j, i + 1)) else 0)
      ensures Ky[j, i] == (if j < NY - 1 then KFaceHarmonic(CombK(NX, NY, j, i), CombK(NX, NY, j + 1, i)) else 0)
    {
      assert Kx[j, i] == FaceRight(kcell, j, i) && Ky[j, i] == FaceDown(kcell, j, i);
      if i < NX - 1 {
        assert OnGrid(NY, NX, j, i + 1);
      }
      if j < NY - 1 {
        assert OnGrid(NY, NX, j + 1, i);
      }
    }
  }
}
