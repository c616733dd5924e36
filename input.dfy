/** The pointer handling of the UEFI heat demo (Heat2D.c, lines 393-478):
    POINTER_STATE, InitPointer and PollPointer. The pointer protocols are
    not called; what LocateProtocol found and what each GetState returned
    are parameters (None for an error status). */
module Input {
  import opened Bits
  import opened Numerals
  import opened Pixels

  datatype Option<T> = None | Some(value: T)

  /** The EFI_ABSOLUTE_POINTER_MODE range (UINT64 fields). */
  datatype AbsMode = AbsMode(minX: u64, maxX: u64, minY: u64, maxY: u64)

  /** EFI_ABSOLUTE_POINTER_STATE. */
  datatype AbsState = AbsState(currentX: u64, currentY: u64, activeButtons: u32)

  /** EFI_SIMPLE_POINTER_STATE. */
  datatype RelState = RelState(relX: i32, relY: i32, leftButton: bool)

  /** The fields of POINTER_STATE that PollPointer changes. */
  datatype PointerView = PointerView(x: int, y: int, lastAbsValid: bool, lastAbsX: int, lastAbsY: int)

  /** The fields it only reads. */
  datatype PointerConfig = PointerConfig(hasAbs: bool, hasRel: bool,
                                         absMinX: int, absMaxX: int, absMinY: int, absMaxY: int,
                                         relScale: int)

  datatype PollResult = PollResult(view: PointerView, event: bool, pressed: bool)

  predicate Screen(width: int, height: int) {
    1 <= width < TWO31 && 1 <= height < TWO31
  }

  predicate OnScreen(width: int, height: int, x: int, y: int) {
    0 <= x < width && 0 <= y < height
  }

  /** One absolute coordinate: the INT32 reading minus the minimum, times
      (screen - 1) in 64 bits, divided (C division) by the range, or by 1
      when the range is not positive, cast to INT32 and clamped to the
      screen. */
  function AbsCoord(current: u64, lo: int, hi: int, screen: int): (c: int)
    requires 1 <= screen < TWO31
    ensures 0 <= c <= screen - 1
  {
    var a := WrapI32(current);
    var range := WrapI32(hi - lo);
    var r := if range <= 0 then 1 else range;
    Clamp(WrapI32(TruncDiv(WrapI32(a - lo) * (screen - 1), r)), 0, screen - 1)
  }

  /** The ends of the device range map onto the ends of the screen. */
  lemma AbsCoordEnds(lo: int, hi: int, screen: int)
    requires 0 <= lo < hi < TWO31 && 1 <= screen < TWO31
    ensures AbsCoord(lo, lo, hi, screen) == 0
    ensures AbsCoord(hi, lo, hi, screen) == screen - 1
  {
    var r := hi - lo;
    assert WrapI32(r) == r && WrapI32(lo) == lo && WrapI32(hi) == hi && WrapI32(0) == 0;
    assert TruncDiv(0 * (screen - 1), r) == 0;
    LemmaModUnique(r * (screen - 1), r, screen - 1, 0);
    assert TruncDiv(r * (screen - 1), r) == screen - 1;
    assert WrapI32(screen - 1) == screen - 1;
  }

  /** Inside the device range the mapping never moves backwards. */
  lemma AbsCoordMonotone(a: int, b: int, lo: int, hi: int, screen: int)
    requires 0 <= lo <= a <= b <= hi < TWO31 && lo < hi && 1 <= screen < TWO31
    ensures AbsCoord(a, lo, hi, screen) <= AbsCoord(b, lo, hi, screen)
  {
    AbsCoordInRange(a, lo, hi, screen);
    AbsCoordInRange(b, lo, hi, screen);
    MulMonotone(b - lo, a - lo, screen - 1);
    DivMonotone((a - lo) * (screen - 1), (b - lo) * (screen - 1), hi - lo);
  }

  /** Inside the device range no cast wraps and no clamp applies. */
  lemma AbsCoordInRange(a: int, lo: int, hi: int, screen: int)
    requires 0 <= lo <= a <= hi < TWO31 && lo < hi && 1 <= screen < TWO31
    ensures AbsCoord(a, lo, hi, screen) == (a - lo) * (screen - 1) / (hi - lo)
  {
    var r := hi - lo;
    assert WrapI32(r) == r && WrapI32(a) == a && WrapI32(a - lo) == a - lo;
    var n := (a - lo) * (screen - 1);
    ScaledQuotient(a - lo, r, screen - 1);
    assert TruncDiv(n, r) == n / r;
    assert WrapI32(n / r) == n / r;
  }

  /** 0 <= d <= r, 0 < r and 0 <= m give 0 <= d * m / r <= m. */
  lemma ScaledQuotient(d: int, r: int, m: int)
    requires 0 <= d <= r && 0 < r && 0 <= m
    ensures 0 <= d * m / r <= m
  {
    MulMonotone(r, d, m);
    MulMonotone(d, 0, m);
    DivMonotone(d * m, r * m, r);
    LemmaModUnique(r * m, r, m, 0);
  }

  /** The relative delta: RelativeMovement / RelScale, C division. */
  function RelDelta(m: int, scale: int): (d: int)
    requires scale >= 1
    ensures -TWO31 <= m < TWO31 ==> -TWO31 <= d < TWO31
    ensures (m == 0) ==> d == 0
  {
    TruncDivBound(m, scale);
    TruncDiv(m, scale)
  }

  lemma TruncDivBound(m: int, scale: int)
    requires scale >= 1
    ensures -TWO31 <= m < TWO31 ==> -TWO31 <= TruncDiv(m, scale) < TWO31
    ensures m == 0 ==> TruncDiv(m, scale) == 0
  {
    if m >= 0 {
      DivBounds(m, scale, m);
    } else {
      DivBounds(-m, scale, -m);
    }
  }

  /** PollPointer as a function of the state and the readings. An absolute
      reading with a button down wins; then relative motion; then absolute
      motion; otherwise the position stays. */
  function Poll(v: PointerView, cfg: PointerConfig, width: int, height: int,
                absRead: Option<AbsState>, relRead: Option<RelState>): (r: PollResult)
    requires Screen(width, height) && cfg.relScale >= 1
    requires OnScreen(width, height, v.x, v.y)
    ensures OnScreen(width, height, r.view.x, r.view.y)
    ensures r.event <==> r.pressed || r.view.x != v.x || r.view.y != v.y
    ensures r.pressed <==> (cfg.hasAbs && absRead.Some? && absRead.value.activeButtons != 0) ||
                           (cfg.hasRel && relRead.Some? && relRead.value.leftButton)
  {
    var absAvail := cfg.hasAbs && absRead.Some?;
    var absX := if absAvail then AbsCoord(absRead.value.currentX, cfg.absMinX, cfg.absMaxX, width) else v.x;
    var absY := if absAvail then AbsCoord(absRead.value.currentY, cfg.absMinY, cfg.absMaxY, height) else v.y;
    var absPressed := absAvail && absRead.value.activeButtons != 0;
    var absMoved := absAvail && (!v.lastAbsValid || absX != v.lastAbsX || absY != v.lastAbsY);
    var relAvail := cfg.hasRel && relRead.Some?;
    var dx := if relAvail then RelDelta(relRead.value.relX, cfg.relScale) else 0;
    var dy := if relAvail then RelDelta(relRead.value.relY, cfg.relScale) else 0;
    var relMoved := relAvail && (dx != 0 || dy != 0);
    var relPressed := relAvail && relRead.value.leftButton;
    var pressed := absPressed || relPressed;
    var (nx, ny) :=
      if absPressed then (absX, absY)
      else if relMoved then (Clamp(v.x + dx, 0, width - 1), Clamp(v.y + dy, 0, height - 1))
      else if absMoved then (absX, absY)
      else (v.x, v.y);
    var last := if absAvail then PointerView(nx, ny, true, absX, absY)
                else PointerView(nx, ny, v.lastAbsValid, v.lastAbsX, v.lastAbsY);
    PollResult(last, pressed || nx != v.x || ny != v.y, pressed)
  }

  /** With an absolute reading whose buttons are down, the pointer jumps to
      the reading whatever the relative device says. */
  lemma AbsPressWins(v: PointerView, cfg: PointerConfig, width: int, height: int,
                     st: AbsState, relRead: Option<RelState>)
    requires Screen(width, height) && cfg.relScale >= 1 && OnScreen(width, height, v.x, v.y)
    requires cfg.hasAbs && st.activeButtons != 0
    ensures var r := Poll(v, cfg, width, height, Some(st), relRead);
      r.pressed && r.event &&
      r.view == PointerView(AbsCoord(st.currentX, cfg.absMinX, cfg.absMaxX, width),
                            AbsCoord(st.currentY, cfg.absMinY, cfg.absMaxY, height),
                            true, r.view.x, r.view.y)
  {
  }

  /** Without an absolute press, relative motion moves the pointer by the
      scaled delta, clamped to the screen. */
  lemma RelMotionMoves(v: PointerView, cfg: PointerConfig, width: int, height: int,
                       absRead: Option<AbsState>, st: RelState)
    requires Screen(width, height) && cfg.relScale >= 1 && OnScreen(width, height, v.x, v.y)
    requires !(cfg.hasAbs && absRead.Some? && absRead.value.activeButtons != 0)
    requires cfg.hasRel
    requires RelDelta(st.relX, cfg.relScale) != 0 || RelDelta(st.relY, cfg.relScale) != 0
    ensures var r := Poll(v, cfg, width, height, absRead, Some(st));
      r.view.x == Clamp(v.x + RelDelta(st.relX, cfg.relScale), 0, width - 1) &&
      r.view.y == Clamp(v.y + RelDelta(st.relY, cfg.relScale), 0, height - 1)
  {
  }

  /** No readings at all: nothing changes and nothing is reported. */
  lemma NoInputNoEvent(v: PointerView, cfg: PointerConfig, width: int, height: int)
    requires Screen(width, height) && cfg.relScale >= 1 && OnScreen(width, height, v.x, v.y)
    ensures Poll(v, cfg, width, height, None, None) == PollResult(v, false, false)
  {
  }

  /** The same released absolute reading a second time (no relative input)
      changes nothing and reports nothing: the absolute pointer moves the
      cursor only when its reading changes. */
  lemma RepeatedAbsIdle(v: PointerView, cfg: PointerConfig, width: int, height: int, st: AbsState)
    requires Screen(width, height) && cfg.relScale >= 1 && OnScreen(width, height, v.x, v.y)
    requires cfg.hasAbs && st.activeButtons == 0
    ensures var r1 := Poll(v, cfg, width, height, Some(st), None);
      var r2 := Poll(r1.view, cfg, width, height, Some(st), None);
      r2 == PollResult(r1.view, false, false)
  {
  }

  /** POINTER_STATE. */
  class PointerState {
    var x: int
    var y: int
    var lastAbsValid: bool
    var lastAbsX: int
    var lastAbsY: int
    const cfg: PointerConfig

    function View(): PointerView
      reads this
    {
      PointerView(x, y, lastAbsValid, lastAbsX, lastAbsY)
    }

    ghost predicate Valid(width: int, height: int)
      reads this
    {
      Screen(width, height) && cfg.relScale >= 1 && OnScreen(width, height, x, y)
    }

    /** InitPointer: the pointer starts at the screen centre with RelScale 8
        and no last absolute reading; the absolute range is the protocol's
        mode cast to INT32. */
    constructor InitPointer(width: int, height: int, absMode: Option<AbsMode>, relFound: bool)
      requires Screen(width, height)
      ensures Valid(width, height)
      ensures x == width / 2 && y == height / 2 && !lastAbsValid && lastAbsX == 0 && lastAbsY == 0
      ensures cfg.relScale == 8 && cfg.hasRel == relFound && cfg.hasAbs == absMode.Some?
      ensures absMode.Some? ==>
        cfg.absMinX == WrapI32(absMode.value.minX) && cfg.absMaxX == WrapI32(absMode.value.maxX) &&
        cfg.absMinY == WrapI32(absMode.value.minY) && cfg.absMaxY == WrapI32(absMode.value.maxY)
      ensures absMode.None? ==> cfg.absMinX == 0 && cfg.absMaxX == 0 && cfg.absMinY == 0 && cfg.absMaxY == 0
    {
      x := width / 2;
      y := height / 2;
      lastAbsValid := false;
      lastAbsX := 0;
      lastAbsY := 0;
      match absMode {
        case None =>
          cfg := PointerConfig(false, relFound, 0, 0, 0, 0, 8);
        case Some(m) =>
          cfg := PointerConfig(true, relFound, WrapI32(m.minX), WrapI32(m.maxX),
                               WrapI32(m.minY), WrapI32(m.maxY), 8);
      }
    }

    /** PollPointer: the new fields and the two results are those of Poll. */
    method PollPointer(width: int, height: int, absRead: Option<AbsState>, relRead: Option<RelState>)
      returns (event: bool, pressed: bool)
      requires Valid(width, height)
      modifies this
      ensures Valid(width, height)
      ensures var r := Poll(old(View()), cfg, width, height, absRead, relRead);
        View() == r.view && event == r.event && pressed == r.pressed
    {
      var absAvail := false;
      var absPressed := false;
      var absMoved := false;
      var absX := x;
      var absY := y;
      if cfg.hasAbs && absRead.Some? {
        var st := absRead.value;
        absAvail := true;
        absX := AbsCoord(st.currentX, cfg.absMinX, cfg.absMaxX, width);
        absY := AbsCoord(st.currentY, cfg.absMinY, cfg.absMaxY, height);
        absPressed := st.activeButtons != 0;
        if !lastAbsValid || absX != lastAbsX || absY != lastAbsY {
          absMoved := true;
        }
        lastAbsValid := true;
        lastAbsX := absX;
        lastAbsY := absY;
      }
      var relAvail := false;
      var relPressed := false;
      var relMoved := false;
      var dx := 0;
      var dy := 0;
      if cfg.hasRel && relRead.Some? {
        var st := relRead.value;
        relAvail := true;
        dx := RelDelta(st.relX, cfg.relScale);
        dy := RelDelta(st.relY, cfg.relScale);
        relMoved := dx != 0 || dy != 0;
        relPressed := st.leftButton;
      }
      pressed := absPressed || relPressed;
      var moved := false;
      if absAvail && absPressed {
        moved := absX != x || absY != y;
        x, y := absX, absY;
      } else if relAvail && relMoved {
        var nx := Clamp(x + dx, 0, width - 1);
        var ny := Clamp(y + dy, 0, height - 1);
        moved := nx != x || ny != y;
        x, y := nx, ny;
      } else if absAvail && absMoved {
        moved := absX != x || absY != y;
        x, y := absX, absY;
      }
      event := moved || pressed;
    }
  }
}
