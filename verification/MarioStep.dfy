/** Mario's registers, clocked: position, jump, fall and scroll, with 10-bit arithmetic. */
module MarioStep {

  const X_MIN: Word := 120
  const X_MAX: Word := 519
  const Y_MIN: Word := 40
  const Y_MAX: Word := 439
  const SIZE: Word := 20
  const STEP: Word := 2
  const MAX_JUMP: Jump := 95
  const KEY_A: nat := 0x04
  const KEY_D: nat := 0x07
  const KEY_W: nat := 0x1A

  /** Register widths: 10, 7, 4 and 2 bits. */
  type Word = n: nat | n < 1024
  type Jump = n: nat | n < 128
  type Timer = n: nat | n < 16
  type Sprite = n: nat | n < 4

  /** 10-bit addition and subtraction. */
  function Add(a: Word, b: Word): Word {
    (a + b) % 1024
  }

  function Sub(a: Word, b: Word): Word {
    (a + 1024 - b) % 1024
  }

  /** The registers. `edge` and `delayed` detect the rising edge of the frame clock. */
  datatype Mario = Mario(
    x: Word, y: Word, jump: Jump, falling: bool, isJumping: bool, direction: bool,
    runCounter: Sprite, timer: Timer, edge: bool, delayed: bool)

  /** What the module sees at a clock: keys, the frame clock, and the blocks around Mario. */
  datatype Input = Input(reset: bool, frameClk: bool, key: nat, up: nat, down: nat, left: nat, right: nat)

  // ---- one frame -------------------------------------------------------------------------------

  predicate StartsJump(m: Mario, i: Input) {
    i.key == KEY_W && !m.falling && m.jump == 0 && i.up == 0
  }

  /** At its maximum height, at the ceiling or under a block. */
  predicate TopsOut(m: Mario, i: Input) {
    m.jump == MAX_JUMP || Sub(m.y, SIZE) <= Y_MIN || i.up != 0
  }

  predicate OnGround(m: Mario, i: Input) {
    Sub(Add(m.y, SIZE), 1) >= Y_MAX || i.down != 0
  }

  /** Up, down, or staying: jump counter, falling and the jumping sprite after the frame. */
  datatype Vertical = Rise(jump: Jump) | Fall | Stand

  function NextVertical(m: Mario, i: Input): Vertical {
    if StartsJump(m, i) then Rise(1)
    else if m.jump >= 1 then if TopsOut(m, i) then Fall else Rise((m.jump + 1) % 128)
    else if OnGround(m, i) then Stand
    else Fall
  }

  predicate MovesLeft(m: Mario, i: Input) {
    i.key == KEY_A && i.left == 0 && m.x >= Add(X_MIN, SIZE)
  }

  predicate MovesRight(m: Mario, i: Input) {
    !MovesLeft(m, i) && i.key == KEY_D && i.right == 0 && Add(m.x, SIZE) <= X_MAX
  }

  /** The distance of a horizontal step; shorter in the air. */
  function Stride(m: Mario): Word {
    if m.isJumping then STEP - 1 else STEP
  }

  /** Past the middle of the screen the screen moves instead of Mario; compared at 32 bits, without wrapping. */
  predicate Shifts(m: Mario) {
    m.x + 21 > (X_MAX + X_MIN) / 2
  }

  function NextX(m: Mario, i: Input): Word {
    if Shifts(m) then Sub(m.x, 40)
    else if MovesLeft(m, i) then Sub(m.x, Stride(m))
    else if MovesRight(m, i) then Add(m.x, Stride(m))
    else m.x
  }

  /** One frame of the game. */
  function Frame(m: Mario, i: Input): Mario {
    var v := NextVertical(m, i);
    var walks := MovesLeft(m, i) || MovesRight(m, i);
    m.(
      x := NextX(m, i),
      y := match v case Rise(_) => Sub(m.y, STEP) case Fall => Add(m.y, STEP) case Stand => m.y,
      jump := if v.Rise? then v.jump else 0,
      falling := match v case Rise(_) => m.falling case Fall => true case Stand => false,
      isJumping := if v.Rise? || m.jump >= 1 then true else if v.Stand? then false else m.isJumping,
      direction := if MovesLeft(m, i) then true else if MovesRight(m, i) then false else m.direction,
      runCounter := if !walks then 0 else if m.timer != 9 then m.runCounter
                    else if m.runCounter == 3 then 2 else m.runCounter + 1,
      timer := if !walks then m.timer else if m.timer == 9 then 0 else (m.timer + 1) % 16)
  }

  function Reset(m: Mario): Mario {
    m.(x := X_MIN + 20, y := Y_MAX - SIZE, jump := 0, falling := false, isJumping := false,
       direction := false, runCounter := 0, timer := 15)
  }

  /** One clock. */
  function Clock(m: Mario, i: Input): Mario {
    var next := if i.reset then Reset(m) else if m.edge then Frame(m, i) else m;
    next.(edge := i.frameClk && !m.delayed, delayed := i.frameClk)
  }

  function Run(m: Mario, inputs: seq<Input>): Mario
    decreases |inputs|
  {
    if inputs == [] then m else Clock(Run(m, inputs[..|inputs| - 1]), inputs[|inputs| - 1])
  }

  // ---- the reachable states --------------------------------------------------------------------

  /**
   X in [138, 300]; Y odd in [57, 421], so no 10-bit sum wraps; an ascent is counted from 1 to 95 and lifted
   Mario two pixels a frame off the place it started from, and he never falls and ascends at once.
   */
  predicate Inv(m: Mario) {
    && 138 <= m.x <= 300
    && 57 <= m.y <= 421 && m.y % 2 == 1 && (m.y == 57 ==> m.jump >= 1)
    && m.jump <= MAX_JUMP
    && (m.jump >= 1 ==> !m.falling && m.y + 2 * m.jump <= 421)
  }

  /** Within those bounds a frame moves Mario by the signed amounts, without wrapping. */
  lemma NoWrap(m: Mario, i: Input)
    requires Inv(m)
    ensures var m' := Frame(m, i);
            && m'.y == (match NextVertical(m, i) case Rise(_) => m.y - 2 case Fall => m.y + 2 case Stand => m.y)
            && m'.x == m.x + (if Shifts(m) then -40 else if MovesLeft(m, i) then 0 - Stride(m)
                              else if MovesRight(m, i) then Stride(m) else 0)
            && (Shifts(m) <==> m.x >= 299)
  {
  }

  lemma VerticalStays(m: Mario, i: Input)
    requires Inv(m)
    ensures var v := NextVertical(m, i);
            && (v.Rise? ==> !m.falling && v.jump == m.jump + 1 <= MAX_JUMP && m.y >= 59)
            && (v.Fall? ==> m.y <= 419)
            && (v.Stand? ==> m.jump == 0)
  {
  }

  lemma ClockKeeps(m: Mario, i: Input)
    requires Inv(m)
    ensures Inv(Clock(m, i))
  {
    if m.edge && !i.reset {
      NoWrap(m, i);
      VerticalStays(m, i);
    }
  }

  lemma {:induction false} RunKeeps(m: Mario, inputs: seq<Input>)
    requires Inv(m)
    ensures Inv(Run(m, inputs))
    decreases |inputs|
  {
    if inputs != [] {
      RunKeeps(m, inputs[..|inputs| - 1]);
      ClockKeeps(Run(m, inputs[..|inputs| - 1]), inputs[|inputs| - 1]);
    }
  }

  /** After a reset, whatever the registers held, every run stays within bounds. */
  lemma Bounds(m: Mario, reset: Input, inputs: seq<Input>)
    requires reset.reset
    ensures var m' := Run(Clock(m, reset), inputs);
            && 138 <= m'.x <= 300 && 57 <= m'.y <= 421 && m'.y % 2 == 1
            && m'.jump <= 95 && !(m'.falling && m'.jump >= 1)
  {
    RunKeeps(Clock(m, reset), inputs);
  }

  // ---- a frame, in full ------------------------------------------------------------------------

  /**
   Up and down.  A jump starts exactly at the jump key, at rest, with nothing above; an ascent goes on except at
   its 95th frame, at the ceiling or under a block, where it turns into a fall; and Mario stands exactly on the
   floor or on a block.
   */
  lemma VerticalExactly(m: Mario, i: Input)
    requires Inv(m)
    ensures var m' := Frame(m, i);
            var starts := i.key == 0x1A && !m.falling && m.jump == 0 && i.up == 0;
            var rises := m.jump >= 1 && m.jump != 95 && m.y - 20 > 40 && i.up == 0;
            var stands := !starts && m.jump == 0 && (m.y + 20 - 1 >= 439 || i.down != 0);
            && m'.y == (if starts || rises then m.y - 2 else if stands then m.y else m.y + 2)
            && m'.jump == (if starts then 1 else if rises then m.jump + 1 else 0)
            && m'.falling == (!starts && !rises && !stands)
            && m'.isJumping == (starts || m.jump >= 1 || (!stands && m.isJumping))
  {
  }

  /**
   Left and right.  The keys move Mario by two, or by one while he jumps, unless a block or the edge is in the
   way; left goes before right.  Past the middle the screen is shifted instead.
   */
  lemma SidewaysExactly(m: Mario, i: Input)
    requires Inv(m)
    ensures var m' := Frame(m, i);
            var left := i.key == 0x04 && i.left == 0 && m.x >= 140;
            var right := i.key == 0x07 && i.right == 0 && m.x <= 499;
            var stride := if m.isJumping then 1 else 2;
            && m'.x == (if m.x >= 299 then m.x - 40
                        else if left then m.x - stride else if right then m.x + stride else m.x)
            && m'.direction == (left || (!right && m.direction))
  {
    NoWrap(m, i);
  }

  /** The sprite of a walking Mario changes every time the timer passes 9; standing resets it. */
  lemma SpriteExactly(m: Mario, i: Input)
    requires Inv(m)
    ensures var m' := Frame(m, i);
            var walks := (i.key == 0x04 && i.left == 0 && m.x >= 140) || (i.key == 0x07 && i.right == 0 && m.x <= 499);
            && m'.timer == (if !walks then m.timer else if m.timer == 9 then 0
                            else if m.timer == 15 then 0 else m.timer + 1)
            && m'.runCounter == (if !walks then 0 else if m.timer != 9 then m.runCounter
                                 else if m.runCounter == 0 then 1 else if m.runCounter == 1 then 2
                                 else if m.runCounter == 2 then 3 else 2)
  {
  }

  /** One clock: reset, or a frame if the edge detector has seen the frame clock rise, or nothing. */
  lemma ClockExactly(m: Mario, i: Input)
    ensures var m' := Clock(m, i);
            && m'.edge == (i.frameClk && !m.delayed) && m'.delayed == i.frameClk
            && (i.reset ==> m' == Mario(140, 419, 0, false, false, false, 0, 15, m'.edge, m'.delayed))
            && (!i.reset && !m.edge ==> m' == m.(edge := m'.edge, delayed := m'.delayed))
            && (!i.reset && m.edge ==> m' == Frame(m, i).(edge := m'.edge, delayed := m'.delayed))
  {
  }

  // ---- every jump ends -------------------------------------------------------------------------

  predicate Airborne(m: Mario) {
    m.jump >= 1 || m.falling
  }

  /** How many more frames Mario can stay in the air: up for the rest of the jump, down to the floor. */
  function AirLeft(m: Mario): int {
    if m.jump >= 1 then 2 * (MAX_JUMP + 1 - m.jump) + (421 - m.y) / 2
    else if m.falling then (421 - m.y) / 2 + 1
    else 0
  }

  /** A frame in the air uses some of that up, or lands: on the floor or a block, where Mario is. */
  lemma FrameTakesAir(m: Mario, i: Input)
    requires Inv(m) && Airborne(m)
    ensures AirLeft(Frame(m, i)) < AirLeft(m)
    ensures 0 < AirLeft(m) <= 373
    ensures !Airborne(Frame(m, i)) ==> OnGround(m, i) && Frame(m, i).y == m.y
  {
    var v := NextVertical(m, i);
    assert Add(m.y, STEP) == m.y + 2 && Sub(m.y, STEP) == m.y - 2;
    assert m.falling && m.y == 421 ==> OnGround(m, i);
  }

  /** The number of frames in a run: clocks at which the edge register is set and there is no reset. */
  function Frames(m: Mario, inputs: seq<Input>): nat
    decreases |inputs|
  {
    if inputs == [] then 0 else
    var last := |inputs| - 1;
    Frames(m, inputs[..last]) +
    if Run(m, inputs[..last]).edge && !inputs[last].reset then 1 else 0
  }

  /**
   Every jump and every fall ends: while Mario is in the air without a reset, whatever keys are pressed and
   whatever blocks come and go, at most 373 frames pass.
   */
  lemma {:induction false} EveryJumpEnds(m: Mario, inputs: seq<Input>)
    requires Inv(m)
    requires forall n :: 0 <= n <= |inputs| ==> Airborne(Run(m, inputs[..n]))
    requires forall n :: 0 <= n < |inputs| ==> !inputs[n].reset
    ensures Frames(m, inputs) + AirLeft(Run(m, inputs)) <= AirLeft(m)
    ensures Frames(m, inputs) < 373
    decreases |inputs|
  {
    var end := Run(m, inputs);
    assert inputs[..|inputs|] == inputs;
    assert Airborne(Run(m, inputs[..|inputs|])) && Airborne(Run(m, inputs[..0]));
    assert inputs[..0] == [];
    RunKeeps(m, inputs);
    FrameTakesAir(end, Input(false, false, 0, 0, 0, 0, 0));
    FrameTakesAir(m, Input(false, false, 0, 0, 0, 0, 0));
    if inputs != [] {
      var last := |inputs| - 1;
      var before := inputs[..last];
      forall n | 0 <= n <= |before| ensures Airborne(Run(m, before[..n])) {
        assert before[..n] == inputs[..n];
      }
      EveryJumpEnds(m, before);
      RunKeeps(m, before);
      var m' := Run(m, before);
      if m'.edge {
        FrameTakesAir(m', inputs[last]);
        assert AirLeft(Clock(m', inputs[last])) == AirLeft(Frame(m', inputs[last]));
      }
    }
  }

  /**
   One frame of an ascent: it leaves the ground only at a jump key, climbs two pixels for each count of the
   jump counter, and ends in a fall, at the latest after 95 frames.
   */
  lemma AscendingFrame(m: Mario, i: Input)
    requires Inv(m)
    ensures var m' := Frame(m, i);
            && (m'.jump >= 1 ==> m'.y == m.y - 2 && m'.jump == m.jump + 1)
            && (m.jump == 0 && m'.jump == 1 ==> i.key == KEY_W && !m.falling && i.up == 0)
            && (m.jump >= 1 && m'.jump == 0 ==> m'.falling && m'.y == m.y + 2)
            && (m'.y < m.y <==> m'.jump >= 1)
  {
  }

  /** A whole ascent from the ground: at most 95 frames and 190 pixels, two pixels each. */
  lemma {:induction false} AscentIsCounted(m: Mario, inputs: seq<Input>)
    requires Inv(m) && m.jump == 0
    requires forall n :: 0 < n <= |inputs| ==> Run(m, inputs[..n]).jump >= 1
    requires forall n :: 0 <= n < |inputs| ==> !inputs[n].reset
    ensures Run(m, inputs).jump == Frames(m, inputs) <= 95
    ensures Run(m, inputs).y == m.y - 2 * Frames(m, inputs)
    decreases |inputs|
  {
    if inputs != [] {
      var last := |inputs| - 1;
      var before := inputs[..last];
      forall n | 0 < n <= |before| ensures Run(m, before[..n]).jump >= 1 {
        assert before[..n] == inputs[..n];
      }
      AscentIsCounted(m, before);
      RunKeeps(m, before);
      RunKeeps(m, inputs);
      assert inputs[..|inputs|] == inputs;
      AscendingFrame(Run(m, before), inputs[last]);
    }
  }

  // ---- scrolling -------------------------------------------------------------------------------

  /** How often the screen has shifted in a run. */
  function ShiftCount(m: Mario, inputs: seq<Input>): nat
    decreases |inputs|
  {
    if inputs == [] then 0 else
    var last := |inputs| - 1;
    var m' := Run(m, inputs[..last]);
    ShiftCount(m, inputs[..last]) + if m'.edge && !inputs[last].reset && Shifts(m') then 1 else 0
  }

  /** Where Mario is in the level: on the screen, plus 40 for every shift. */
  function LevelX(m: Mario, inputs: seq<Input>): int {
    Run(m, inputs).x + 40 * ShiftCount(m, inputs)
  }

  /** Scrolling conserves the place in the level: a shift leaves it alone, any other clock moves it at most 2. */
  lemma ScrollConserves(m: Mario, inputs: seq<Input>, i: Input)
    requires Inv(m) && !i.reset
    ensures var (before, after) := (LevelX(m, inputs), LevelX(m, inputs + [i]));
            && -2 <= after - before <= 2
            && (ShiftCount(m, inputs + [i]) > ShiftCount(m, inputs) ==> after == before)
  {
    RunKeeps(m, inputs);
    assert (inputs + [i])[..|inputs|] == inputs;
    NoWrap(Run(m, inputs), i);
  }

  /** One more clock without a shift keeps X within two pixels a frame of where the last shift left it. */
  lemma StepFromShift(m: Mario, i: Input, frames: nat)
    requires Inv(m) && !i.reset && m.x <= 260 + 2 * frames
    requires !(m.edge && Shifts(m))
    ensures Clock(m, i).x <= 260 + 2 * (frames + if m.edge then 1 else 0)
  {
    NoWrap(m, i);
  }

  /** Between two shifts there are at least 20 frames. */
  lemma {:induction false} ShiftsAreApart(m: Mario, i: Input, inputs: seq<Input>)
    requires Inv(m) && m.edge && !i.reset && Shifts(m)
    requires forall n :: 0 <= n < |inputs| ==> !inputs[n].reset
    requires ShiftCount(Clock(m, i), inputs) == 0
    ensures var (m1, m2) := (Clock(m, i), Run(Clock(m, i), inputs));
            && m2.x <= 260 + 2 * Frames(m1, inputs)
            && (Shifts(m2) ==> Frames(m1, inputs) >= 20)
    decreases |inputs|
  {
    ClockKeeps(m, i);
    if inputs != [] {
      var last := |inputs| - 1;
      var before := inputs[..last];
      ShiftsAreApart(m, i, before);
      RunKeeps(Clock(m, i), before);
      StepFromShift(Run(Clock(m, i), before), inputs[last], Frames(Clock(m, i), before));
    } else {
      NoWrap(m, i);
    }
    RunKeeps(Clock(m, i), inputs);
    NoWrap(Run(Clock(m, i), inputs), i);
  }

  /** Adding the two's complement is subtracting, at 10 bits. */
  lemma AddNegative(a: Word, b: Word)
    requires b <= 2
    ensures Add(a, Sub(0, b)) == Sub(a, b) && Add(a, 0) == a
  {
    if b == 0 {
      assert a + 1024 == 1024 + a;
    } else if b == 1 {
      assert Sub(0, 1) == 1023;
    } else {
      assert Sub(0, 2) == 1022;
    }
  }

  // ---- the registers ---------------------------------------------------------------------------

  class MarioRegisters {
    var x: Word
    var y: Word
    var jump: Jump
    var falling: bool
    var isJumping: bool
    var direction: bool
    var runCounter: Sprite
    var timer: Timer
    var edge: bool
    var delayed: bool

    ghost function State(): Mario
      reads this
    {
      Mario(x, y, jump, falling, isJumping, direction, runCounter, timer, edge, delayed)
    }

    /** The sprite counters of a walking frame. */
    method Walk(counter: Sprite, clock: Timer) returns (counter': Sprite, clock': Timer)
      ensures clock' == if clock == 9 then 0 else (clock + 1) % 16
      ensures counter' == if clock != 9 then counter else if counter == 3 then 2 else counter + 1
    {
      counter', clock' := counter, clock;
      if clock == 9 {
        counter' := if counter == 3 then 2 else counter + 1;
        clock' := 0;
      } else {
        clock' := (clock + 1) % 16;
      }
    }

    /** The first half of the combinational block: jump, rise, fall or stand. */
    method MoveVertically(i: Input)
      returns (motion: Word, jump': Jump, falling': bool, isJumping': bool)
      ensures var (m, v) := (State(), NextVertical(State(), i));
              && motion == (match v case Rise(_) => Sub(0, STEP) case Fall => STEP case Stand => 0)
              && jump' == (if v.Rise? then v.jump else 0)
              && falling' == (if v.Rise? then falling else v.Fall?)
              && isJumping' == (v.Rise? || jump >= 1 || (v.Fall? && isJumping))
    {
      motion, jump', falling', isJumping' := 0, jump, falling, isJumping;
      if i.key == KEY_W && !falling && jump == 0 && i.up == 0 {
        motion, jump', isJumping' := Sub(0, STEP), 1, true;
      } else if jump >= 1 {
        isJumping' := true;
        if jump == MAX_JUMP || Sub(y, SIZE) <= Y_MIN || i.up != 0 {
          motion, falling', jump' := STEP, true, 0;
        } else {
          jump', motion := (jump + 1) % 128, Sub(0, STEP);
        }
      } else if Sub(Add(y, SIZE), 1) >= Y_MAX || i.down != 0 {
        motion, falling', jump', isJumping' := 0, false, 0, false;
      } else if falling || i.down == 0 {
        falling', motion := true, STEP;
      }
    }

    /** The second half: walk left, walk right or stop the legs. */
    method MoveSideways(i: Input)
      returns (motion: Word, direction': bool, runCounter': Sprite, timer': Timer)
      ensures var m := State();
              && motion == (if MovesLeft(m, i) then Sub(0, Stride(m))
                            else if MovesRight(m, i) then Stride(m) else 0)
              && direction' == (MovesLeft(m, i) || (!MovesRight(m, i) && direction))
              && runCounter' == (if !MovesLeft(m, i) && !MovesRight(m, i) then 0 else if timer != 9 then runCounter
                                 else if runCounter == 3 then 2 else runCounter + 1)
              && timer' == (if !MovesLeft(m, i) && !MovesRight(m, i) then timer
                            else if timer == 9 then 0 else (timer + 1) % 16)
    {
      motion, direction', runCounter', timer' := 0, direction, runCounter, timer;
      if i.key == KEY_A && i.left == 0 && x >= Add(X_MIN, SIZE) {
        motion := Sub(0, if isJumping then STEP - 1 else STEP);
        direction' := true;
        runCounter', timer' := Walk(runCounter, timer);
      } else if i.key == KEY_D && i.right == 0 && Add(x, SIZE) <= X_MAX {
        motion := if isJumping then STEP - 1 else STEP;
        direction' := false;
        runCounter', timer' := Walk(runCounter, timer);
      } else {
        runCounter' := 0;
      }
    }

    /** The combinational block: what the registers hold next, and whether the screen shifts. */
    method NextState(i: Input) returns (next: Mario, shift: bool)
      ensures next == if edge then Frame(State(), i) else State()
      ensures shift <==> edge && Shifts(State())
    {
      // nothing changes by default
      next, shift := Mario(x, y, jump, falling, isJumping, direction, runCounter, timer, edge, delayed), false;
      if edge {
        var yMotion, jump', falling', isJumping' := MoveVertically(i);
        var xMotion, direction', runCounter', timer' := MoveSideways(i);
        shift := x + 21 > (X_MAX + X_MIN) / 2;
        AddNegative(x, Stride(State()));
        AddNegative(y, STEP);
        next := Mario(if shift then Sub(x, 40) else Add(x, xMotion), Add(y, yMotion), jump', falling', isJumping',
                      direction', runCounter', timer', edge, delayed);
      }
    }

    /** One clock: the combinational block, then the registers. */
    method OnClock(i: Input) returns (shift: bool)
      modifies this
      ensures State() == Clock(old(State()), i)
      ensures shift <==> old(edge) && Shifts(old(State()))
    {
      var next: Mario;
      next, shift := NextState(i);
      if i.reset {
        x, y, falling, jump := X_MIN + 20, Y_MAX - SIZE, false, 0;
        runCounter, isJumping, direction, timer := 0, false, false, 15;
      } else {
        x, y, falling, jump := next.x, next.y, next.falling, next.jump;
        runCounter, isJumping, direction, timer := next.runCounter, next.isJumping, next.direction, next.timer;
      }
      edge, delayed := i.frameClk && !delayed, i.frameClk;
    }
  }
}
