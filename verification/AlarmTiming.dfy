/**
 The deadline of one alarm, kept in a 32-bit tick counter that wraps, against an unbounded clock.  `now`
 is the true number of ticks since reset; the counter shows `now % WRAP`.
 */
module AlarmTiming {
  import opened Platform

  /** The alarm's `time` and `rollover` fields. */
  datatype Timer = Timer(time: nat, rollover: bool)

  /** alt_alarm_start. */
  function StartTimer(now: nat, nticks: nat): Timer {
    var current := now % WRAP;
    var time := (nticks + current + 1) % WRAP;
    Timer(time, time < current)
  }

  /** When the counter has wrapped, the rollover flag has done its work. */
  function Cleared(timer: Timer, counter: nat): Timer {
    if timer.rollover && counter == 0 then timer.(rollover := false) else timer
  }

  predicate Expired(timer: Timer, counter: nat) {
    timer.time <= counter && !timer.rollover
  }

  /** The callback asked for another call `period` ticks later. */
  function Rearmed(timer: Timer, counter: nat, period: nat): Timer {
    var time := (timer.time + period) % WRAP;
    Timer(time, time < counter || timer.rollover)
  }

  // ---- deadlines -------------------------------------------------------------------------------

  /** The true tick of an alarm's next call.  A late alarm was due a tick before that. */
  datatype Deadline = Deadline(due: nat, late: bool)

  /**
   What the fields mean at tick `now`: the deadline lies ahead, in the epoch of the counter that the flag tells.
   A late alarm's time has been reached already.  With the counter at its maximum a time just reached comes round
   with the next epoch.
   */
  predicate Stands(timer: Timer, now: nat, d: Deadline) {
    && timer.time < WRAP && now < d.due
    && if d.late then d.due == now + 1 && timer == Timer(now % WRAP, false) && now % WRAP < WRAP - 1
       else
         || d.due == (now / WRAP + if timer.rollover then 1 else 0) * WRAP + timer.time
         || (now % WRAP == WRAP - 1 && timer == Timer(now % WRAP, false) && d.due == now + WRAP)
  }

  /** An alarm whose time is the current tick is called at the next, unless the counter wraps there. */
  function Overdue(now: nat): Deadline {
    if now % WRAP == WRAP - 1 then Deadline(now + WRAP, false) else Deadline(now + 1, true)
  }

  /** What starting an alarm comes to: the deadline asked for, but for the largest delay. */
  function StartDeadline(now: nat, nticks: nat): Deadline {
    if nticks <= WRAP - 2 then Deadline(now + nticks + 1, false) else Overdue(now)
  }

  /** An alarm called at its deadline has answered `period`: a late one counts from when it was due. */
  function After(d: Deadline, period: nat): Deadline
    requires period > 0
  {
    if !d.late then Deadline(d.due + period, false)
    else if period == 1 then Overdue(d.due)
    else Deadline(d.due + period - 1, false)
  }

  /** The tick that the fields of an alarm started at `now` with deadline `d` count from. */
  function Origin(d: Deadline, now: nat): nat {
    if d.late || d.due == now + WRAP then now else d.due
  }

  /** `tick` lies so far ahead of `now` that the flag, set or not by `origin`, cannot tell its epoch. */
  predicate TooFar(now: nat, origin: nat, tick: nat) {
    tick >= now + WRAP && !(now / WRAP < origin / WRAP && tick / WRAP == now / WRAP + 1)
  }

  /**
   An alarm that its own callback, called at `now`, has started again with deadline `d`, and whose callback then
   answered `period`: it is called that much later than asked for; but a turn of the counter earlier if that is
   too far ahead.
   */
  function Later(d: Deadline, now: nat, period: nat): Deadline {
    var tick := Origin(d, now) + period;
    if !TooFar(now, Origin(d, now), tick) then Deadline(tick, false)
    else if tick > now + WRAP then Deadline(tick - WRAP, false)
    else Overdue(now)
  }

  lemma DivideBy(n: nat, q: nat, r: nat)
    requires n == q * WRAP + r && r < WRAP
    ensures n / WRAP == q && n % WRAP == r
  {
  }

  lemma NextCounter(now: nat)
    ensures (now % WRAP + 1) % WRAP == (now + 1) % WRAP
    ensures (now + 1) % WRAP == (if now % WRAP == WRAP - 1 then 0 else now % WRAP + 1)
    ensures (now + 1) / WRAP == now / WRAP + if now % WRAP == WRAP - 1 then 1 else 0
  {
    var (q, r) := (now / WRAP, now % WRAP);
    if r == WRAP - 1 { DivideBy(now + 1, q + 1, 0); } else { DivideBy(now + 1, q, r + 1); }
  }

  lemma OverdueStands(now: nat)
    ensures Stands(Timer(now % WRAP, false), now, Overdue(now))
  {
  }

  /** A sum of less than two turns, taken modulo one. */
  lemma WrapOnce(n: nat)
    requires n < 2 * WRAP
    ensures n % WRAP == if n < WRAP then n else n - WRAP
  {
    if n < WRAP { DivideBy(n, 0, n); } else { DivideBy(n, 1, n - WRAP); }
  }

  /** Starting an alarm sets that deadline, for every delay and counter. */
  lemma StartStands(now: nat, nticks: nat)
    requires nticks < WRAP
    ensures Stands(StartTimer(now, nticks), now, StartDeadline(now, nticks))
  {
    WrapOnce(nticks + now % WRAP + 1);
    assert now == now / WRAP * WRAP + now % WRAP;
    if nticks == WRAP - 1 { OverdueStands(now); }
  }

  /** A tick finds the alarm expired exactly at its deadline, and otherwise leaves it set for it. */
  lemma TickExact(timer: Timer, now: nat, d: Deadline)
    requires Stands(timer, now, d)
    ensures var t := Cleared(timer, (now + 1) % WRAP);
            && (Expired(t, (now + 1) % WRAP) <==> d.due == now + 1)
            && (d.due != now + 1 ==> Stands(t, now + 1, d))
            && (d.due == now + 1 ==> t == Timer((if d.late then now else now + 1) % WRAP, false))
  {
    NextCounter(now);
    assert now == now / WRAP * WRAP + now % WRAP;
  }

  lemma RearmOnTime(now: nat, period: nat)
    requires 0 < period < WRAP
    ensures Stands(Rearmed(Timer(now % WRAP, false), now % WRAP, period), now, Deadline(now + period, false))
  {
    WrapOnce(now % WRAP + period);
    assert now == now / WRAP * WRAP + now % WRAP;
  }

  /** Rearming an alarm that has just expired sets it for exactly `period` ticks later, or one less if it was late. */
  lemma RearmStands(d: Deadline, period: nat)
    requires 0 < period < WRAP && d.due > 0 && (d.late ==> (d.due - 1) % WRAP < WRAP - 1)
    ensures var timer := Timer((if d.late then d.due - 1 else d.due) % WRAP, false);
            Stands(Rearmed(timer, d.due % WRAP, period), d.due, After(d, period))
  {
    if !d.late {
      RearmOnTime(d.due, period);
    } else {
      NextCounter(d.due - 1);
      WrapOnce(d.due % WRAP + (period - 1));
      if period == 1 { OverdueStands(d.due); } else { RearmOnTime(d.due, period - 1); }
    }
  }

  /**
   The fields that result from counting `turns` epochs to the origin and `carry` more to the tick stand for the
   tick, or for the same place an epoch earlier.
   */
  lemma TurnsStand(now: nat, origin: nat, tick: nat, turns: nat, carry: nat, time: nat)
    requires turns <= 1 && carry <= 1 && time < WRAP && now <= origin < tick < origin + WRAP
    requires origin / WRAP == now / WRAP + turns && origin < now + WRAP
    requires tick == (now / WRAP + turns + carry) * WRAP + time
    ensures var timer := Timer(time, time < now % WRAP || turns == 1);
            && (!TooFar(now, origin, tick) ==> Stands(timer, now, Deadline(tick, false)))
            && (TooFar(now, origin, tick) && tick > now + WRAP ==> Stands(timer, now, Deadline(tick - WRAP, false)))
            && (TooFar(now, origin, tick) && tick <= now + WRAP ==> timer == Timer(now % WRAP, false))
  {
    assert now == now / WRAP * WRAP + now % WRAP;
    DivideBy(tick, now / WRAP + turns + carry, time);
  }

  /** The fields of an alarm just started stand for its origin, and the flag for the origin's epoch. */
  lemma StartsFrom(now: nat, nticks: nat) returns (origin: nat, turns: nat)
    requires nticks < WRAP
    ensures origin == Origin(StartDeadline(now, nticks), now) && now <= origin < now + WRAP
    ensures turns <= 1 && origin / WRAP == now / WRAP + turns
    ensures StartTimer(now, nticks) == Timer(origin % WRAP, turns == 1)
  {
    var (q, r) := (now / WRAP, now % WRAP);
    assert now == q * WRAP + r;
    origin := if nticks == WRAP - 1 then now else now + nticks + 1;
    WrapOnce(nticks + r + 1);
    turns := if origin - q * WRAP < WRAP then 0 else 1;
    DivideBy(origin, q + turns, StartTimer(now, nticks).time);
  }

  /** Rearming an alarm that its callback has just started again, for all delays and answers. */
  lemma LaterStands(now: nat, nticks: nat, period: nat)
    requires nticks < WRAP && 0 < period < WRAP
    ensures var d := StartDeadline(now, nticks);
            Stands(Rearmed(StartTimer(now, nticks), now % WRAP, period), now, Later(d, now, period))
  {
    var origin, turns := StartsFrom(now, nticks);
    var time := origin % WRAP;
    WrapOnce(time + period);
    var carry := if time + period < WRAP then 0 else 1;
    assert origin == (now / WRAP + turns) * WRAP + time;
    TurnsStand(now, origin, origin + period, turns, carry, (time + period) % WRAP);
    OverdueStands(now);
  }

  /** It is called when it was meant to be exactly if that is not too far ahead; else a turn early, or next. */
  lemma LaterExactly(now: nat, nticks: nat, period: nat)
    requires nticks <= WRAP - 2 && 0 < period < WRAP
    ensures var d := StartDeadline(now, nticks);
            var tick := now + nticks + 1 + period;
            && (Later(d, now, period).due == tick <==> !TooFar(now, d.due, tick))
            && (nticks + 1 + period < WRAP ==> Later(d, now, period) == Deadline(tick, false))
  {
    var (q, r) := (now / WRAP, now % WRAP);
    assert now == q * WRAP + r;
  }

  // ---- whole runs ------------------------------------------------------------------------------

  /**
   The true times at which the alarm's callback is called in the next `k` ticks, if it answers with the
   given periods; 0, or nothing, deactivates the alarm.
   */
  function Firings(timer: Timer, now: nat, k: nat, periods: seq<nat>): seq<nat>
    decreases k
  {
    if k == 0 then [] else
    var counter := (now + 1) % WRAP;
    var t := Cleared(timer, counter);
    if !Expired(t, counter) then Firings(t, now + 1, k - 1, periods)
    else if periods == [] || periods[0] == 0 then [now + 1]
    else [now + 1] + Firings(Rearmed(t, counter, periods[0]), now + 1, k - 1, periods[1..])
  }

  /** What the deadline and the answers come to, up to tick `last`. */
  function Schedule(d: Deadline, last: nat, periods: seq<nat>): seq<nat>
    decreases |periods|
  {
    if d.due > last then []
    else if periods == [] || periods[0] == 0 then [d.due]
    else [d.due] + Schedule(After(d, periods[0]), last, periods[1..])
  }

  /** What the caller means: first at `due`, then each time the answered period later. */
  function Meant(due: nat, last: nat, periods: seq<nat>): seq<nat>
    decreases |periods|
  {
    if due > last then []
    else if periods == [] || periods[0] == 0 then [due]
    else [due] + Meant(due + periods[0], last, periods[1..])
  }

  /** An alarm that is not late keeps to what was meant. */
  lemma {:induction false} AsMeant(due: nat, last: nat, periods: seq<nat>)
    ensures Schedule(Deadline(due, false), last, periods) == Meant(due, last, periods)
    decreases |periods|
  {
    if periods != [] && periods[0] > 0 { AsMeant(due + periods[0], last, periods[1..]); }
  }

  /** One that is late makes it up with its first answer over 1, which counts from when it was due. */
  lemma BackOnTime(due: nat, last: nat, periods: seq<nat>)
    requires due <= last && periods != [] && periods[0] > 1
    ensures Schedule(Deadline(due, true), last, periods) == [due] + Meant(due - 1 + periods[0], last, periods[1..])
  {
    AsMeant(due - 1 + periods[0], last, periods[1..]);
  }

  /** For as long as it runs, and however often the counter wraps, every alarm keeps to its deadlines. */
  lemma {:induction false} FiringsAreScheduled(timer: Timer, now: nat, d: Deadline, k: nat, periods: seq<nat>)
    requires Stands(timer, now, d)
    requires forall i :: 0 <= i < |periods| ==> periods[i] < WRAP
    ensures Firings(timer, now, k, periods) == Schedule(d, now + k, periods)
    decreases k
  {
    if k > 0 {
      TickExact(timer, now, d);
      var t := Cleared(timer, (now + 1) % WRAP);
      if d.due != now + 1 {
        FiringsAreScheduled(t, now + 1, d, k - 1, periods);
      } else if periods != [] && periods[0] != 0 {
        RearmStands(d, periods[0]);
        FiringsAreScheduled(Rearmed(t, (now + 1) % WRAP, periods[0]), now + 1, After(d, periods[0]), k - 1,
                            periods[1..]);
      }
    }
  }

  /** Exactness: started in range, an alarm is called first when asked for and then each answered period later. */
  lemma AlarmExactness(now: nat, nticks: nat, k: nat, periods: seq<nat>)
    requires nticks <= WRAP - 2
    requires forall i :: 0 <= i < |periods| ==> periods[i] < WRAP
    ensures Firings(StartTimer(now, nticks), now, k, periods) == Meant(now + nticks + 1, now + k, periods)
  {
    StartStands(now, nticks);
    FiringsAreScheduled(StartTimer(now, nticks), now, StartDeadline(now, nticks), k, periods);
    AsMeant(now + nticks + 1, now + k, periods);
  }

  /** The alarm, started now, first fires `k` ticks from now. */
  predicate FirstFiresAfter(timer: Timer, now: nat, k: nat) {
    k > 0 && Firings(timer, now, k, []) == [now + k]
  }

  /**
   Over all 32-bit delays, the first call comes when it was asked for, except for the largest delay: then
   only if the counter stood at its maximum; otherwise it comes at the very next tick.
   */
  lemma FirstFiring(now: nat, nticks: nat)
    requires nticks < WRAP
    ensures FirstFiresAfter(StartTimer(now, nticks), now, nticks + 1) <==>
              (nticks != WRAP - 1 || now % WRAP == WRAP - 1)
    ensures nticks == WRAP - 1 && now % WRAP != WRAP - 1 ==> FirstFiresAfter(StartTimer(now, nticks), now, 1)
  {
    StartStands(now, nticks);
    FiringsAreScheduled(StartTimer(now, nticks), now, StartDeadline(now, nticks), nticks + 1, []);
    FiringsAreScheduled(StartTimer(now, nticks), now, StartDeadline(now, nticks), 1, []);
  }
}
