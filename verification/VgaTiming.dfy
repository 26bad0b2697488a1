/** The VGA timing generator: pixel and line counters, sync and blanking, over any number of pixel clocks. */
module VgaTiming {

  const H_TOTAL: nat := 800
  const V_TOTAL: nat := 525
  const FRAME: nat := 420000

  /** The registers; `hs`, `vs` and `blankN` are active low. */
  type Counter = n: nat | n < 1024
  datatype Vga = Vga(hs: bool, vs: bool, blankN: bool, h: Counter, v: Counter)

  function NextH(s: Vga): Counter {
    if (s.h + 1) % 1024 == H_TOTAL then 0 else (s.h + 1) % 1024
  }

  function NextV(s: Vga): Counter {
    if (s.h + 1) % 1024 != H_TOTAL then s.v
    else if (s.v + 1) % 1024 == V_TOTAL then 0
    else (s.v + 1) % 1024
  }

  /** One pixel clock. */
  function Clock(s: Vga, reset: bool): Vga {
    if reset then Vga(false, false, false, 0, 0) else
    var (h, v) := (NextH(s), NextV(s));
    Vga(!(656 <= h < 752), !(490 <= v < 492), h < 640 && v < 480, h, v)
  }

  /** The registers `n` clocks after a reset clock, whatever they held before it. */
  function After(s: Vga, n: nat): Vga {
    if n == 0 then Clock(s, true) else Clock(After(s, n - 1), false)
  }

  // ---- closed form -----------------------------------------------------------------------------

  function Column(n: nat): nat {
    n % H_TOTAL
  }

  function Line(n: nat): nat {
    n / H_TOTAL % V_TOTAL
  }

  /** From a place in the raster, one clock goes to the next place. */
  lemma ClockAdvances(s: Vga)
    requires s.h < H_TOTAL && s.v < V_TOTAL
    ensures var t := Clock(s, false);
            && t.h == (if s.h == H_TOTAL - 1 then 0 else s.h + 1)
            && t.v == (if s.h != H_TOTAL - 1 then s.v else if s.v == V_TOTAL - 1 then 0 else s.v + 1)
  {
  }

  lemma StepPlace(n: nat)
    ensures Column(n + 1) == if Column(n) == H_TOTAL - 1 then 0 else Column(n) + 1
    ensures Line(n + 1) == if Column(n) != H_TOTAL - 1 then Line(n)
                           else if Line(n) == V_TOTAL - 1 then 0 else Line(n) + 1
  {
    var q := n / H_TOTAL;
    if Column(n) == H_TOTAL - 1 {
      assert (n + 1) / H_TOTAL == q + 1;
    } else {
      assert (n + 1) / H_TOTAL == q;
    }
  }

  lemma {:induction false} ClosedPlace(s: Vga, n: nat)
    ensures After(s, n).h == Column(n) < H_TOTAL && After(s, n).v == Line(n) < V_TOTAL
  {
    if n > 0 {
      ClosedPlace(s, n - 1);
      StepPlace(n - 1);
      ClockAdvances(After(s, n - 1));
    }
  }

  /** n pixel clocks after reset: column n mod 800, line (n div 800) mod 525, and the signals that go with them. */
  lemma {:induction false} ClosedForm(s: Vga, n: nat)
    ensures After(s, n).h == n % 800 && After(s, n).v == n / 800 % 525
    ensures n > 0 ==> var (x, y) := (n % 800, n / 800 % 525);
            && (After(s, n).blankN <==> x < 640 && y < 480)
            && (!After(s, n).hs <==> 656 <= x < 752)
            && (!After(s, n).vs <==> 490 <= y < 492)
  {
    ClosedPlace(s, n);
  }

  // ---- counting over a frame -------------------------------------------------------------------

  /** Columns x0 up to x1 of lines y0 up to y1. */
  datatype Rect = Rect(x0: nat, x1: nat, y0: nat, y1: nat)

  predicate InRaster(r: Rect) {
    r.x0 <= r.x1 <= H_TOTAL && r.y0 <= r.y1 <= V_TOTAL
  }

  predicate Inside(r: Rect, n: nat) {
    r.x0 <= Column(n) < r.x1 && r.y0 <= Line(n) < r.y1
  }

  /** How many of the `n` clocks from `a` on lie in the rectangle. */
  function Hits(r: Rect, a: nat, n: nat): nat {
    if n == 0 then 0 else Hits(r, a, n - 1) + if Inside(r, a + n - 1) then 1 else 0
  }

  /** How much of the interval lo up to hi lies below k. */
  function Below(lo: nat, hi: nat, k: nat): nat {
    if k <= lo then 0 else if k >= hi then if lo <= hi then hi - lo else 0 else k - lo
  }

  lemma PlaceInLine(y: nat, x: nat)
    requires x < H_TOTAL && y < V_TOTAL
    ensures Column(H_TOTAL * y + x) == x && Line(H_TOTAL * y + x) == y
  {
    assert (H_TOTAL * y + x) / H_TOTAL == y;
  }

  /** Part of one line. */
  lemma {:induction false} HitsInLine(r: Rect, y: nat, n: nat)
    requires InRaster(r) && y < V_TOTAL && n <= H_TOTAL
    ensures Hits(r, H_TOTAL * y, n) == if r.y0 <= y < r.y1 then Below(r.x0, r.x1, n) else 0
  {
    if n > 0 {
      HitsInLine(r, y, n - 1);
      PlaceInLine(y, n - 1);
    }
  }

  lemma {:induction false} HitsSplit(r: Rect, a: nat, n: nat, k: nat)
    ensures Hits(r, a, n + k) == Hits(r, a, n) + Hits(r, a + n, k)
  {
    if k > 0 {
      HitsSplit(r, a, n, k - 1);
      assert a + (n + k) - 1 == (a + n) + k - 1;
      assert n + (k - 1) == n + k - 1;
    }
  }

  /** The area above a line grows by the width of the rectangle at each of its lines. */
  lemma BelowGrows(r: Rect, y: nat)
    requires InRaster(r)
    ensures (r.x1 - r.x0) * Below(r.y0, r.y1, y + 1)
         == (r.x1 - r.x0) * Below(r.y0, r.y1, y) + if r.y0 <= y < r.y1 then r.x1 - r.x0 else 0
  {
    var (width, above) := (r.x1 - r.x0, Below(r.y0, r.y1, y));
    if r.y0 <= y < r.y1 {
      assert Below(r.y0, r.y1, y + 1) == above + 1;
      assert width * (above + 1) == width * above + width;
    } else {
      assert Below(r.y0, r.y1, y + 1) == above;
    }
  }

  /** Whole lines from the top. */
  lemma {:induction false} HitsInLines(r: Rect, y: nat)
    requires InRaster(r) && y <= V_TOTAL
    ensures Hits(r, 0, H_TOTAL * y) == (r.x1 - r.x0) * Below(r.y0, r.y1, y)
  {
    if y > 0 {
      HitsInLines(r, y - 1);
      HitsSplit(r, 0, H_TOTAL * (y - 1), H_TOTAL);
      HitsInLine(r, y - 1, H_TOTAL);
      BelowGrows(r, y - 1);
    }
  }

  lemma Periodic(n: nat)
    ensures Column(n + FRAME) == Column(n) && Line(n + FRAME) == Line(n)
  {
    assert n + FRAME == H_TOTAL * 525 + n;
    assert (n + FRAME) / H_TOTAL == n / H_TOTAL + 525;
  }

  /** A frame's worth of clocks covers the same places wherever it starts. */
  lemma {:induction false} AnyFrame(r: Rect, a: nat)
    ensures Hits(r, a, FRAME) == Hits(r, 0, FRAME)
  {
    if a > 0 {
      AnyFrame(r, a - 1);
      HitsSplit(r, a - 1, 1, FRAME);
      HitsSplit(r, a - 1, FRAME, 1);
      assert Hits(r, a - 1, 1) == Hits(r, a - 1, 0) + if Inside(r, a - 1) then 1 else 0;
      assert Hits(r, a - 1 + FRAME, 1) == Hits(r, a - 1 + FRAME, 0) + if Inside(r, a - 1 + FRAME) then 1 else 0;
      Periodic(a - 1);
    }
  }

  lemma FrameArea(r: Rect, a: nat)
    requires InRaster(r)
    ensures Hits(r, a, FRAME) == (r.x1 - r.x0) * (r.y1 - r.y0)
  {
    AnyFrame(r, a);
    HitsInLines(r, V_TOTAL);
    assert H_TOTAL * V_TOTAL == FRAME;
  }

  // ---- what the screen sees --------------------------------------------------------------------

  /** What can be watched for at a clock. */
  datatype Watch = At(r: Rect) | Unblanked | HorizontalSync | VerticalSync

  predicate Shows(w: Watch, s: Vga) {
    match w
    case At(r) => r.x0 <= s.h < r.x1 && r.y0 <= s.v < r.y1
    case Unblanked => s.blankN
    case HorizontalSync => !s.hs
    case VerticalSync => !s.vs
  }

  /** The place in the raster a signal stands for. */
  function Area(w: Watch): Rect {
    match w
    case At(r) => r
    case Unblanked => Rect(0, 640, 0, 480)
    case HorizontalSync => Rect(656, 752, 0, 525)
    case VerticalSync => Rect(0, 800, 490, 492)
  }

  /** How many of the `n` clocks from clock `a` after the reset show `w`. */
  function Ticks(s: Vga, w: Watch, a: nat, n: nat): nat {
    if n == 0 then 0 else Ticks(s, w, a, n - 1) + if Shows(w, After(s, a + n - 1)) then 1 else 0
  }

  lemma {:induction false} TicksAreHits(s: Vga, w: Watch, a: nat, n: nat)
    requires a >= 1
    ensures Ticks(s, w, a, n) == Hits(Area(w), a, n)
  {
    if n > 0 {
      TicksAreHits(s, w, a, n - 1);
      ClosedForm(s, a + n - 1);
    }
  }

  /** Any 420000 consecutive clocks after the reset cover each rectangle of the raster exactly once. */
  lemma FrameCovers(s: Vga, r: Rect, a: nat)
    requires a >= 1 && InRaster(r)
    ensures Ticks(s, At(r), a, 420000) == (r.x1 - r.x0) * (r.y1 - r.y0)
  {
    TicksAreHits(s, At(r), a, FRAME);
    FrameArea(r, a);
  }

  /** In particular every pixel is drawn exactly once. */
  lemma EveryPixelOnce(s: Vga, x: nat, y: nat, a: nat)
    requires a >= 1 && x < 640 && y < 480
    ensures Ticks(s, At(Rect(x, x + 1, y, y + 1)), a, 420000) == 1
  {
    var r := Rect(x, x + 1, y, y + 1);
    FrameCovers(s, r, a);
    assert r.x1 - r.x0 == 1 && r.y1 - r.y0 == 1;
  }

  /** And they hold 307200 visible clocks, 525 line pulses of 96 clocks and one frame pulse of 1600. */
  lemma FrameSignals(s: Vga, a: nat)
    requires a >= 1
    ensures Ticks(s, Unblanked, a, 420000) == 307200
    ensures Ticks(s, HorizontalSync, a, 420000) == 96 * 525
    ensures Ticks(s, VerticalSync, a, 420000) == 1600
  {
    TicksAreHits(s, Unblanked, a, FRAME);
    FrameArea(Area(Unblanked), a);
    TicksAreHits(s, HorizontalSync, a, FRAME);
    FrameArea(Area(HorizontalSync), a);
    TicksAreHits(s, VerticalSync, a, FRAME);
    FrameArea(Area(VerticalSync), a);
  }

  // ---- the registers ---------------------------------------------------------------------------

  class VgaRegisters {
    var hs: bool
    var vs: bool
    var blankN: bool
    var h: Counter
    var v: Counter
    ghost var before: Vga
    ghost var clocks: nat

    ghost function State(): Vga
      reads this
    {
      Vga(hs, vs, blankN, h, v)
    }

    /** `clocks` clocks have passed since the last reset, at which the registers held `before`. */
    ghost predicate Valid()
      reads this
    {
      State() == After(before, clocks)
    }

    /** The first clock is a reset, whatever the registers held at power-up. */
    constructor (powerUp: Vga)
      ensures Valid() && clocks == 0 && before == powerUp
    {
      hs, vs, blankN, h, v := false, false, false, 0, 0;
      before, clocks := powerUp, 0;
    }

    /** The combinational block: counters and signals for the next clock. */
    method Next() returns (next: Vga)
      ensures next == Clock(State(), false)
    {
      var h': Counter, v': Counter := (h + 1) % 1024, v;
      if (h + 1) % 1024 == H_TOTAL {
        h' := 0;
        if (v + 1) % 1024 == V_TOTAL {
          v' := 0;
        } else {
          v' := (v + 1) % 1024;
        }
      }
      var hs', vs', blankN' := true, true, false;
      if 656 <= h' < 752 {
        hs' := false;
      }
      if 490 <= v' < 492 {
        vs' := false;
      }
      if h' < 640 && v' < 480 {
        blankN' := true;
      }
      next := Vga(hs', vs', blankN', h', v');
    }

    /** One pixel clock: the combinational block, then the registers. */
    method OnClock(reset: bool)
      requires Valid()
      modifies this
      ensures Valid() && State() == Clock(old(State()), reset)
      ensures clocks == if reset then 0 else old(clocks) + 1
      ensures h == clocks % 800 && v == clocks / 800 % 525
    {
      var next := Next();
      if reset {
        before, clocks := State(), 0;
        hs, vs, blankN, h, v := false, false, false, 0, 0;
      } else {
        clocks := clocks + 1;
        hs, vs, blankN, h, v := next.hs, next.vs, next.blankN, next.h, next.v;
      }
      ClosedForm(before, clocks);
    }
  }
}
