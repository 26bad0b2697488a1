/** The wall clock: settimeofday and gettimeofday over the 32-bit tick counter. */
module TimeOfDay {
  import opened Platform
  import opened Arithmetic

  const US: int := 1_000_000

  datatype TimeVal = TimeVal(sec: int, usec: int)

  datatype TimeZone = TimeZone(minutesWest: int, dstTime: int)

  /** A 32-bit result, read as signed. */
  function Signed(n: int): int {
    var m := n % WRAP;
    if m < WRAP / 2 then m else m - WRAP
  }

  predicate IsSigned(n: int) {
    -(WRAP / 2) <= n < WRAP / 2
  }

  predicate Normal(t: TimeVal) {
    0 <= t.usec < US
  }

  /** Microseconds per tick, as the code computes them. */
  function PerTick(rate: int): int
    requires rate > 0
  {
    US / rate
  }

  /** The microseconds part of a tick count, with the 32-bit product of the set and the 64-bit one of the get. */
  function SetPart(nticks: int, rate: int): int
    requires rate > 0
  {
    ((nticks * PerTick(rate)) % WRAP) % US
  }

  function GetPart(nticks: int, rate: int): int
    requires rate > 0
  {
    (nticks * PerTick(rate)) % US
  }

  /** alt_resettime after a set. */
  function Reset(t: TimeVal, nticks: int, rate: int): TimeVal
    requires rate > 0
  {
    TimeVal(Signed(t.sec - nticks / rate), Signed(t.usec - SetPart(nticks, rate)))
  }

  /** The fields of the result before they are normalised. */
  function Raw(reset: TimeVal, nticks: int, rate: int): TimeVal
    requires rate > 0
  {
    TimeVal(Signed(reset.sec + nticks / rate), Signed(reset.usec + GetPart(nticks, rate)))
  }

  /** Borrow seconds for negative microseconds; a time before zero becomes zero. */
  function Borrow(t: TimeVal): TimeVal
    decreases if t.usec < 0 then -t.usec else 0
  {
    if t.usec >= 0 then t
    else if t.sec <= 0 then TimeVal(0, 0)
    else Borrow(TimeVal(t.sec - 1, t.usec + US))
  }

  function Carry(t: TimeVal): TimeVal
    decreases if t.usec >= US then t.usec else 0
  {
    if t.usec < US then t else Carry(TimeVal(t.sec + 1, t.usec - US))
  }

  /** The time a get returns. */
  function Get(reset: TimeVal, nticks: int, rate: int): TimeVal
    requires rate > 0
  {
    Carry(Borrow(Raw(reset, nticks, rate)))
  }

  function Total(t: TimeVal): int {
    t.sec * US + t.usec
  }

  /** Normalising keeps the time and yields a normal one, unless the time is before zero. */
  lemma NormaliseKeeps(t: TimeVal)
    requires t.usec >= 0 || Total(t) >= 0
    ensures var r := Carry(Borrow(t)); Normal(r) && Total(r) == Total(t)
  {
    BorrowKeeps(t);
    CarryKeeps(Borrow(t));
  }

  lemma {:induction false} BorrowKeeps(t: TimeVal)
    requires t.usec >= 0 || Total(t) >= 0
    ensures Total(Borrow(t)) == Total(t) && Borrow(t).usec >= 0
    decreases if t.usec < 0 then -t.usec else 0
  {
    if t.usec < 0 { BorrowKeeps(TimeVal(t.sec - 1, t.usec + US)); }
  }

  lemma {:induction false} CarryKeeps(t: TimeVal)
    requires t.usec >= 0
    ensures Total(Carry(t)) == Total(t) && Normal(Carry(t))
    decreases t.usec
  {
    if t.usec >= US { CarryKeeps(TimeVal(t.sec + 1, t.usec - US)); }
  }

  // ---- arithmetic ------------------------------------------------------------------------------

  /** Wrapping twice is wrapping once. */
  lemma SignedSum(a: int, b: int)
    requires IsSigned(a + b)
    ensures Signed(Signed(a) + b) == a + b
  {
    var m := a % WRAP;
    assert a == (a / WRAP) * WRAP + m;
    var q := if m < WRAP / 2 then a / WRAP else a / WRAP + 1;
    assert Signed(a) == a - q * WRAP;
    WrapsBack(a + b, q);
  }

  lemma WrapsBack(n: int, q: int)
    requires IsSigned(n)
    ensures Signed(n - q * WRAP) == n
  {
    if n >= 0 {
      ModOf(n - q * WRAP, -q, n, WRAP);
    } else {
      ModOf(n - q * WRAP, -q - 1, n + WRAP, WRAP);
    }
  }

  /** With a rate that divides a million, whole seconds and the rest account for every tick. */
  lemma TicksSplit(nticks: int, rate: int)
    requires nticks >= 0 && rate > 0 && US % rate == 0
    ensures (nticks / rate) * US + GetPart(nticks, rate) == nticks * PerTick(rate)
  {
    var (q, s, r) := (PerTick(rate), nticks / rate, nticks % rate);
    assert q * rate == US;
    assert nticks == s * rate + r;
    calc {
      nticks * q;
      (s * rate + r) * q;
      s * (rate * q) + r * q;
      s * US + r * q;
    }
    RemainderSmall(r, rate, q);
    ModOf(nticks * q, s, r * q, US);
  }

  lemma RemainderSmall(r: int, rate: int, q: int)
    requires 0 <= r < rate && q * rate == US && q > 0
    ensures 0 <= r * q < US
  {
    assert (rate - r) * q >= 1 * q;
    assert (rate - r) * q == rate * q - r * q;
  }

  // ---- set, then get ---------------------------------------------------------------------------

  /**
   Set, then get `k` ticks later: for a rate that divides a million and a tick count whose microseconds fit
   32 bits at the set, the result is the time set plus exactly the time passed, normalised and not clamped.
   */
  lemma SetThenGet(t: TimeVal, nticks: int, k: int, rate: int)
    requires Normal(t) && t.sec >= 0 && rate > 0 && US % rate == 0
    requires 0 <= nticks && 0 <= k && nticks + k < WRAP
    requires nticks * PerTick(rate) < WRAP
    requires t.sec + (nticks + k) / rate - nticks / rate + 1 < WRAP / 2
    ensures var r := Get(Reset(t, nticks, rate), nticks + k, rate);
            Normal(r) && Total(r) == Total(t) + k * PerTick(rate)
  {
    DivisionMonotone(nticks, nticks + k, rate);
    RawTotal(t, nticks, k, rate);
    NoOverflow(nticks, rate);
    ProductNonneg(k, PerTick(rate));
    NormaliseKeeps(Raw(Reset(t, nticks, rate), nticks + k, rate));
  }

  /** The fields before normalising: the time set, the time passed, and the error of the set's product. */
  lemma RawTotal(t: TimeVal, nticks: int, k: int, rate: int)
    requires Normal(t) && rate > 0 && US % rate == 0 && 0 <= nticks && 0 <= k
    requires IsSigned(t.sec - nticks / rate + (nticks + k) / rate)
    ensures Total(Raw(Reset(t, nticks, rate), nticks + k, rate))
              == Total(t) + k * PerTick(rate) + (GetPart(nticks, rate) - SetPart(nticks, rate))
  {
    var n := nticks + k;
    RawSum(t, nticks, n, rate);
    TicksSplit(nticks, rate);
    TicksSplit(n, rate);
    Distribute(nticks, k, PerTick(rate));
    Elapsed(t, Raw(Reset(t, nticks, rate), n, rate), nticks / rate, n / rate, SetPart(nticks, rate),
            GetPart(nticks, rate), GetPart(n, rate), nticks * PerTick(rate), k * PerTick(rate));
  }

  lemma NoOverflow(nticks: int, rate: int)
    requires 0 <= nticks && rate > 0 && nticks * PerTick(rate) < WRAP
    ensures SetPart(nticks, rate) == GetPart(nticks, rate)
  {
    ProductNonneg(nticks, PerTick(rate));
    ModOf(nticks * PerTick(rate), 0, nticks * PerTick(rate), WRAP);
  }

  lemma PartsBounded(nticks: int, rate: int)
    requires rate > 0
    ensures 0 <= SetPart(nticks, rate) < US && 0 <= GetPart(nticks, rate) < US
  {
  }

  /** The wrap-around of the set and of the get cancel. */
  lemma RawSum(t: TimeVal, nticks: int, n: int, rate: int)
    requires Normal(t) && rate > 0 && IsSigned(t.sec - nticks / rate + n / rate)
    ensures Raw(Reset(t, nticks, rate), n, rate)
              == TimeVal(t.sec - nticks / rate + n / rate, t.usec - SetPart(nticks, rate) + GetPart(n, rate))
  {
    PartsBounded(nticks, rate);
    PartsBounded(n, rate);
    SignedSum(t.sec - nticks / rate, n / rate);
    SignedSum(t.usec - SetPart(nticks, rate), GetPart(n, rate));
  }

  lemma Elapsed(t: TimeVal, raw: TimeVal, s0: int, s1: int, part: int, exact: int, u1: int, before: int, elapsed: int)
    requires raw == TimeVal(t.sec - s0 + s1, t.usec - part + u1)
    requires s0 * US + exact == before && s1 * US + u1 == before + elapsed
    ensures Total(raw) == Total(t) + elapsed + (exact - part)
  {
  }

  /** How often the microseconds of a tick count overflow 32 bits. */
  function Overflows(nticks: int, rate: int): int
    requires rate > 0
  {
    nticks * PerTick(rate) / WRAP
  }

  /**
   An immediate get returns the time just set exactly when the microseconds since reset have overflowed 32
   bits a multiple of 15625 times, so always while they fit; or when the error falls on time zero and is
   negative, where the clamp hides it.
   */
  lemma ImmediateRoundTrip(t: TimeVal, nticks: int, rate: int)
    requires Normal(t) && IsSigned(t.sec) && rate > 0 && 0 <= nticks < WRAP
    ensures Get(Reset(t, nticks, rate), nticks, rate) == t <==>
              || Overflows(nticks, rate) % 15625 == 0
              || (t == TimeVal(0, 0) && GetPart(nticks, rate) < SetPart(nticks, rate))
  {
    PartsBounded(nticks, rate);
    RawSum(t, nticks, nticks, rate);
    NormaliseShifted(t, GetPart(nticks, rate) - SetPart(nticks, rate));
    PartsAgree(nticks, rate);
  }

  /**
   The same for a get `k` ticks later, at every tick count of the set: the result is exact exactly when that
   overflow is a multiple of 15625, or nothing has passed since time zero and the clamp hides the error.
   */
  lemma SetThenGetExactly(t: TimeVal, nticks: int, k: int, rate: int)
    requires Normal(t) && t.sec >= 0 && rate > 0 && US % rate == 0
    requires 0 <= nticks && 0 <= k && nticks + k < WRAP
    requires t.sec + (nticks + k) / rate - nticks / rate + 1 < WRAP / 2
    ensures var r := Get(Reset(t, nticks, rate), nticks + k, rate);
            Normal(r) && Total(r) == Total(t) + k * PerTick(rate) <==>
              || Overflows(nticks, rate) % 15625 == 0
              || (t == TimeVal(0, 0) && k == 0 && GetPart(nticks, rate) < SetPart(nticks, rate))
  {
    DivisionMonotone(nticks, nticks + k, rate);
    var raw := Raw(Reset(t, nticks, rate), nticks + k, rate);
    RawTotal(t, nticks, k, rate);
    RawSum(t, nticks, nticks + k, rate);
    PartsBounded(nticks, rate);
    PartsBounded(nticks + k, rate);
    PartsAgree(nticks, rate);
    ElapsedIsZero(k, rate);
    if Total(raw) >= 0 {
      NormaliseKeeps(raw);
    } else {
      Clamped(raw);
    }
  }

  lemma ElapsedIsZero(k: int, rate: int)
    requires k >= 0 && rate > 0 && US % rate == 0
    ensures k * PerTick(rate) >= 0 && (k * PerTick(rate) == 0 <==> k == 0)
  {
    assert PerTick(rate) * rate == US;
    Monotone(1, PerTick(rate), k);
  }

  lemma Clamped(raw: TimeVal)
    requires raw.sec >= 0 && raw.usec > -US && Total(raw) < 0
    ensures Carry(Borrow(raw)) == TimeVal(0, 0)
  {
  }

  /** At 1000 ticks a second, 72 minutes after reset, the time just set is not the time read back. */
  lemma RoundTripFails()
    ensures Get(Reset(TimeVal(100, 0), 4_320_000, 1000), 4_320_000, 1000) != TimeVal(100, 0)
  {
    ImmediateRoundTrip(TimeVal(100, 0), 4_320_000, 1000);
  }

  /** Normalising a normal time shifted by less than a second. */
  lemma NormaliseShifted(t: TimeVal, shift: int)
    requires Normal(t) && -US < shift < US
    ensures Carry(Borrow(TimeVal(t.sec, t.usec + shift))) == t <==> shift == 0 || (t == TimeVal(0, 0) && shift < 0)
  {
  }

  /**
   The two products agree modulo a second exactly when the 64-bit product has overflowed 32 bits a multiple
   of 15625 times; in particular whenever it fits.
   */
  lemma PartsAgree(nticks: int, rate: int)
    requires rate > 0 && 0 <= nticks
    ensures SetPart(nticks, rate) == GetPart(nticks, rate) <==>
              Overflows(nticks, rate) % 15625 == 0
  {
    var product := nticks * PerTick(rate);
    ProductNonneg(nticks, PerTick(rate));
    var (c, w) := (product / WRAP, product % WRAP);
    var (m, x) := (w / US, w % US);
    assert product == c * WRAP + m * US + x;
    if c % 15625 == 0 {
      var d := c / 15625;
      assert c == d * 15625;
      assert c * WRAP == (d * 67108864 * 64) * 15625 == (d * 67108864) * US;
      ModOf(product, d * 67108864 + m, x, US);
    }
    if product % US == x {
      var e := product / US;
      assert product == e * US + x;
      assert c * WRAP == (e - m) * US;
      assert c * 67108864 == (e - m) * 15625;
      MultipleOf15625(c, e - m);
    }
  }

  /** 67108864 is a power of two, so it has an inverse modulo 15625, a power of five. */
  lemma MultipleOf15625(c: int, n: int)
    requires c * 67108864 == n * 15625
    ensures c % 15625 == 0
  {
    assert 67108864 * 12659 == 1 + 15625 * 54369991;
    var k := n * 12659 - c * 54369991;
    assert c == k * 15625;
    ModOf(c, k, 0, 15625);
  }

  // ---- the code --------------------------------------------------------------------------------

  class WallClock {
    var resetTime: TimeVal                 // alt_resettime
    var zone: TimeZone                     // alt_timezone
    const tickRate: nat

    constructor (tickRate: nat)
      ensures resetTime == TimeVal(0, 0) && zone == TimeZone(0, 0) && this.tickRate == tickRate
    {
      resetTime, zone := TimeVal(0, 0), TimeZone(0, 0);
      this.tickRate := tickRate;
    }

    /** ALT_SETTIMEOFDAY: the result and errno. */
    method SetTimeOfDay(nticks: nat, t: TimeVal, tz: TimeZone) returns (ret: int, errno: int)
      requires nticks < WRAP
      modifies this
      ensures tickRate == 0 ==> ret == -1 && errno == ENOSYS && resetTime == old(resetTime) && zone == old(zone)
      ensures tickRate != 0 ==> ret == 0 && errno == 0 && resetTime == Reset(t, nticks, tickRate) && zone == tz
    {
      if tickRate != 0 {
        var sec := Signed(t.sec - nticks / tickRate);
        var product := (nticks * (US / tickRate)) % WRAP;
        var usec := Signed(t.usec - product % US);
        resetTime := TimeVal(sec, usec);
        zone := tz;
        return 0, 0;
      }
      return -1, ENOSYS;
    }

    /** ALT_GETTIMEOFDAY. */
    method GetTimeOfDay(nticks: nat) returns (ret: int, t: TimeVal, tz: TimeZone)
      requires nticks < WRAP
      ensures tickRate == 0 ==> ret == -ENOTSUP
      ensures tickRate != 0 ==> ret == 0 && t == Get(resetTime, nticks, tickRate) && tz == zone
    {
      t, tz := TimeVal(0, 0), TimeZone(0, 0);
      if tickRate == 0 {
        return -ENOTSUP, t, tz;
      }
      var sec := Signed(resetTime.sec + nticks / tickRate);
      var usec := Signed(resetTime.usec + (nticks * (US / tickRate)) % US);
      ghost var raw := TimeVal(sec, usec);
      while usec < 0
        invariant Borrow(TimeVal(sec, usec)) == Borrow(raw)
        decreases -usec
      {
        if sec <= 0 {
          sec, usec := 0, 0;
          break;
        } else {
          sec := sec - 1;
          usec := usec + US;
        }
      }
      assert TimeVal(sec, usec) == Borrow(raw);
      while usec >= US
        invariant Carry(TimeVal(sec, usec)) == Carry(Borrow(raw))
        decreases usec
      {
        sec := sec + 1;
        usec := usec - US;
      }
      t, tz := TimeVal(sec, usec), zone;
      return 0, t, tz;
    }
  }
}
