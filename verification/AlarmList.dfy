/**
 The list of registered alarms: an intrusive circular doubly linked list, walked by the tick routine while
 the callbacks it makes start and stop alarms.
 */
module AlarmList {
  import opened Platform
  import opened AlarmTiming
  import opened AlarmPlan

  /**
   An alarm structure, or the head of the list.  A static structure begins zeroed; one that was never started
   may hold anything.
   */
  class Alarm {
    var next: Alarm?
    var previous: Alarm?
    var time: nat
    var rollover: bool

    constructor ()
      ensures next == null && previous == null
    {
      next, previous := null, null;
      time, rollover := 0, false;
    }

    ghost function State(): Timer
      reads this`time, this`rollover
    {
      Timer(time, rollover)
    }
  }

  /** The fields of an alarm stand for the deadline `d` as of tick `now`. */
  ghost predicate Timed(a: Alarm, d: Deadline, now: nat)
    reads a`time, a`rollover
  {
    Stands(a.State(), now, d)
  }

  /** The pointers `next` and `previous` link the head with `s`, in order; the rest of `on` stands alone. */
  ghost predicate Circular<A>(on: set<A>, next: map<A, A>, previous: map<A, A>, head: A, s: seq<A>) {
    && next.Keys == previous.Keys == on + {head}
    && head !in on
    && (forall a :: a in s ==> a in on)
    && Distinct(s)
    && (s == [] ==> next[head] == head && previous[head] == head)
    && (s != [] ==> next[head] == s[0] && previous[head] == s[|s| - 1])
    && (forall i {:trigger next[s[i]]} :: 0 <= i < |s| ==> next[s[i]] == if i == |s| - 1 then head else s[i + 1])
    && (forall i {:trigger previous[s[i]]} :: 0 <= i < |s| ==> previous[s[i]] == if i == 0 then head else s[i - 1])
    && (forall a :: a in on && a !in s ==> next[a] == a && previous[a] == a)
  }

  /** The fields of an alarm that has just expired: its time is now, or the tick before if it was late. */
  predicate Ripe(t: Timer, d: Deadline, now: nat) {
    && d.due == now > 0 && (d.late ==> (now - 1) % WRAP < WRAP - 1)
    && t == Timer((if d.late then now - 1 else now) % WRAP, false)
  }

  class AlarmSystem {
    const head: Alarm                    // alt_alarm_list
    const known: set<Alarm>              // every alarm structure of the program
    const quiet: set<Alarm>              // those that the program and the callbacks of others leave alone
    const tickRate: nat                  // _alt_tick_rate
    var nticks: nat                      // _alt_nticks
    var started: set<Alarm>              // the alarms the program has started so far
    ghost var alarms: seq<Alarm>         // the registered alarms, in list order
    ghost var plan: map<Alarm, Deadline> // their deadlines
    ghost var log: seq<Event<Alarm>>     // every start, stop and call so far
    ghost var plans: seq<map<Alarm, Deadline>>  // the deadlines before, between and after them
    ghost var answers: seq<Event<Alarm>> // what callbacks have returned: only Callback extends it
    ghost var now: nat                   // the true tick

    /** From the head through the alarms in order and back, and the same in reverse. */
    ghost predicate Links(s: seq<Alarm>)
      reads known`next, known`previous, head`next, head`previous
      requires forall a :: a in s ==> a in known
    {
      && (if s == [] then head.next == head && head.previous == head
          else && head.next == s[0] && head.previous == s[|s| - 1]
               && s[0].previous == head && s[|s| - 1].next == head)
      && (forall i {:trigger s[i].next} :: 0 <= i < |s| - 1 ==> s[i].next == s[i + 1])
      && (forall i {:trigger s[i].previous} :: 1 <= i < |s| ==> s[i].previous == s[i - 1])
    }

    /** The alarms of `s` are linked; others that were started point to themselves, the rest anywhere. */
    ghost predicate LinkedAs(s: seq<Alarm>, on: set<Alarm>)
      reads known`next, known`previous, head`next, head`previous
    {
      && head !in known && on <= known
      && (forall a :: a in s ==> a in on)
      && Distinct(s)
      && Links(s)
      && (forall a :: a in on && a !in s ==> a.next == a && a.previous == a)
    }

    ghost predicate Linked()
      reads this`alarms, this`started, this`plan, this`plans, this`log, known`next, known`previous, head`next,
            head`previous
    {
      LinkedAs(alarms, started) && Covers(plan, alarms) && Logged()
    }

    /** The deadlines are what the log makes of them. */
    ghost predicate Logged()
      reads this`plan, this`plans, this`log
    {
      Traces(plans, log) && plan == plans[|log|]
    }

    lemma LoggedIsReplay()
      requires Logged()
      ensures plan == Replay(map[], log)
    {
      TraceIsReplay(plans, log);
    }

    ghost predicate Valid()
      reads this`alarms, this`started, this`plan, this`plans, this`log, this`now, this`nticks,
            known, head
    {
      Linked() && nticks == now % WRAP && OnTime(alarms, plan, now, null)
    }

    /** The alarms of `s` have deadlines, and their fields stand for them; but perhaps not those of `except`. */
    ghost predicate OnTime(s: seq<Alarm>, p: map<Alarm, Deadline>, t: nat, except: Alarm?)
      reads known`time, known`rollover
    {
      forall a :: a in s && a != except ==> a in known && a in p && Timed(a, p[a], t)
    }

    lemma OnTimePlus(x: Alarm, s: seq<Alarm>, p: map<Alarm, Deadline>, t: nat, except: Alarm?)
      requires OnTime(s, p, t, except) && x in known && x in p && Timed(x, p[x], t)
      ensures OnTime([x] + s, p, t, except)
    {
    }

    lemma OnTimeWithout(s: seq<Alarm>, p: map<Alarm, Deadline>, t: nat, except: Alarm?, x: Alarm)
      requires OnTime(s, p, t, except)
      ensures OnTime(Remove(s, x), p - {x}, t, except)
    {
      RemoveElements(s, x);
    }

    constructor (known: set<Alarm>, quiet: set<Alarm>, tickRate: nat)
      ensures Valid() && alarms == [] && started == {} && now == 0 && log == [] && answers == []
      ensures this.known == known && this.quiet == quiet && this.tickRate == tickRate
    {
      var list := new Alarm();
      list.next, list.previous := list, list;
      head := list;
      this.known, this.quiet, this.tickRate := known, quiet, tickRate;
      nticks, now, started, alarms, plan, log, plans := 0, 0, {}, [], map[], [], [map[]];
      answers := [];
    }

    // ---- the list ------------------------------------------------------------------------------

    /** alt_llist_insert at the head of the list; the entry's own pointers are not read. */
    method Insert(entry: Alarm, ghost s: seq<Alarm>, ghost on: set<Alarm>)
      requires LinkedAs(s, on) && entry in known && entry !in s
      modifies known`next, known`previous, head`next, head`previous
      ensures LinkedAs([entry] + s, on + {entry})
    {
      entry.previous := head;
      entry.next := head.next;
      head.next.previous := entry;
      head.next := entry;
    }

    /** The pointers are `next` and `previous` with `entry` bypassed and standing alone. */
    ghost predicate Bypassed(on: set<Alarm>, entry: Alarm, next: map<Alarm, Alarm>, previous: map<Alarm, Alarm>)
      reads known`next, known`previous, head`next, head`previous
      requires on <= known && entry in on && next.Keys == previous.Keys == on + {head}
    {
      && entry.next == entry && entry.previous == entry
      && (forall a {:trigger a.next} :: a in on + {head} && a != entry ==>
            a.next == if a == previous[entry] then next[entry] else next[a])
      && (forall a {:trigger a.previous} :: a in on + {head} && a != entry ==>
            a.previous == if a == next[entry] then previous[entry] else previous[a])
    }

    /** Bypassing the alarm at `k` leaves the others linked in the same order. */
    lemma BypassOrder(on: set<Alarm>, s: seq<Alarm>, k: nat, next: map<Alarm, Alarm>, previous: map<Alarm, Alarm>)
      requires on <= known && k < |s| && Circular(on, next, previous, head, s)
      requires Bypassed(on, s[k], next, previous)
      ensures var t := s[..k] + s[k + 1..];
              (forall a :: a in t ==> a in on) && Links(t)
    {
      var t := s[..k] + s[k + 1..];
      forall i | 0 <= i < |t| ensures t[i] in on && t[i] != s[k] && t[i] == s[if i < k then i else i + 1] { }
      forall i | 0 <= i < |t| - 1 ensures t[i].next == t[i + 1] {
        if i < k - 1 { assert next[s[i]] == s[i + 1]; }
        else if i >= k { assert next[s[i + 1]] == s[i + 2]; }
      }
      forall i | 1 <= i < |t| ensures t[i].previous == t[i - 1] {
        if i < k { assert previous[s[i]] == s[i - 1]; }
        else if i > k { assert previous[s[i + 1]] == s[i]; }
      }
    }

    lemma BypassLinks(on: set<Alarm>, s: seq<Alarm>, k: nat, next: map<Alarm, Alarm>, previous: map<Alarm, Alarm>)
      requires on <= known && head !in known && k < |s| && Circular(on, next, previous, head, s)
      requires Bypassed(on, s[k], next, previous)
      ensures LinkedAs(s[..k] + s[k + 1..], on)
    {
      var t := s[..k] + s[k + 1..];
      BypassOrder(on, s, k, next, previous);
      StillDistinct(s, k);
      var (before, after) := (previous[s[k]], next[s[k]]);
      assert before == head || before in s;
      assert after == head || after in s;
      forall a | a in on && a !in t ensures a.next == a && a.previous == a {
        if a != s[k] { assert a !in s; }
      }
    }

    /** Bypassing an alarm that stands alone changes nothing. */
    lemma BypassAlone(on: set<Alarm>, s: seq<Alarm>, entry: Alarm,
                      next: map<Alarm, Alarm>, previous: map<Alarm, Alarm>)
      requires on <= known && head !in known && entry in on && entry !in s
      requires Circular(on, next, previous, head, s) && Bypassed(on, entry, next, previous)
      ensures LinkedAs(s, on) && Remove(s, entry) == s
    {
      RemoveAbsent(s, entry);
      assert next[entry] == entry && previous[entry] == entry;
      forall a | a in on + {head} && a != entry ensures a.next == next[a] && a.previous == previous[a] { }
      forall i | 0 <= i < |s| - 1 ensures s[i].next == s[i + 1] {
        assert next[s[i]] == s[i + 1];
      }
      forall i | 1 <= i < |s| ensures s[i].previous == s[i - 1] {
        assert previous[s[i]] == s[i - 1];
      }
    }

    /** Either way the list is the one without the entry. */
    lemma BypassRemoves(on: set<Alarm>, s: seq<Alarm>, entry: Alarm,
                        next: map<Alarm, Alarm>, previous: map<Alarm, Alarm>)
      requires on <= known && head !in known && entry in on
      requires Circular(on, next, previous, head, s) && Bypassed(on, entry, next, previous)
      ensures LinkedAs(Remove(s, entry), on)
    {
      if entry in s {
        var k :| 0 <= k < |s| && s[k] == entry;
        BypassLinks(on, s, k, next, previous);
        RemoveAt(s, k);
      } else {
        BypassAlone(on, s, entry, next, previous);
      }
    }

    /** The pointer updates of alt_llist_remove; `next` and `previous` are the pointers before. */
    method Splice(entry: Alarm, ghost on: set<Alarm>, ghost next: map<Alarm, Alarm>, ghost previous: map<Alarm, Alarm>)
      requires head !in known && on <= known && entry in on
      requires entry.next in on + {head} && entry.previous in on + {head}
      requires next.Keys == previous.Keys == on + {head}
      requires forall a :: a in on + {head} ==> next[a] == a.next && previous[a] == a.previous
      modifies known`next, known`previous, head`next, head`previous
      ensures Bypassed(on, entry, next, previous)
    {
      ghost var before, after := entry.previous, entry.next;
      entry.next.previous := entry.previous;
      entry.previous.next := entry.next;
      entry.previous := entry;
      entry.next := entry;
      assert before == previous[entry] && after == next[entry];
    }

    /** Where the neighbours of a registered alarm are. */
    lemma Neighbours(s: seq<Alarm>, on: set<Alarm>, k: nat)
      requires LinkedAs(s, on) && k < |s|
      ensures s[k].next == if k == |s| - 1 then head else s[k + 1]
      ensures s[k].previous == if k == 0 then head else s[k - 1]
    {
    }

    /** An alarm that was started points to itself exactly when it is not registered. */
    lemma Alone(s: seq<Alarm>, on: set<Alarm>, a: Alarm)
      requires LinkedAs(s, on) && a in on
      ensures a.next == a <==> a !in s
      ensures a.next in on + {head} && a.previous in on + {head}
    {
      if a in s {
        var k :| 0 <= k < |s| && s[k] == a;
        Neighbours(s, on, k);
      }
    }

    /**
     Removing an alarm is harmless exactly if it was started: alt_llist_remove follows both its pointers, and
     those of a static structure that was never started are null.
     */
    lemma RemovableExactly(a: Alarm)
      requires Linked() && a in known && (a !in started ==> a.next == null && a.previous == null)
      ensures a.next != null && a.previous != null <==> a in started
    {
      if a in started { Alone(alarms, started, a); }
    }

    /** The pointers as they are now. */
    lemma Snapshot(s: seq<Alarm>, on: set<Alarm>) returns (next: map<Alarm, Alarm>, previous: map<Alarm, Alarm>)
      requires LinkedAs(s, on)
      ensures Circular(on, next, previous, head, s)
      ensures forall a :: a in on + {head} ==> next[a] == a.next && previous[a] == a.previous
    {
      forall a | a in on + {head} ensures a.next != null && a.previous != null {
        if a in on { Alone(s, on, a); }
      }
      next := map a | a in on + {head} :: a.next;
      previous := map a | a in on + {head} :: a.previous;
      forall i | 0 <= i < |s|
        ensures s[i].next == if i == |s| - 1 then head else s[i + 1]
        ensures s[i].previous == if i == 0 then head else s[i - 1]
      {
        Neighbours(s, on, i);
      }
    }

    /** alt_llist_remove, harmless for an alarm that was removed before. */
    method Unlink(entry: Alarm, ghost s: seq<Alarm>, ghost on: set<Alarm>)
      requires LinkedAs(s, on) && entry in on
      modifies known`next, known`previous, head`next, head`previous
      ensures LinkedAs(Remove(s, entry), on)
    {
      ghost var nexts, previouses := Snapshot(s, on);
      Alone(s, on, entry);
      Splice(entry, on, nexts, previouses);
      BypassRemoves(on, s, entry, nexts, previouses);
    }

    // ---- starting and stopping -----------------------------------------------------------------

    /** An event is logged, and the deadlines become what it makes of them. */
    ghost method Note(e: Event<Alarm>)
      requires Logged()
      modifies this`plan, this`plans, this`log
      ensures log == old(log) + [e] && plan == Do(old(plan), e) && Logged()
    {
      TraceMore(plans, log, e);
      plan, plans, log := Do(plan, e), plans + [Do(plan, e)], log + [e];
    }

    /** The deadline of an alarm that is about to be registered. */
    method SetDeadline(alarm: Alarm, delay: nat)
      requires nticks == now % WRAP && delay < WRAP
      modifies alarm`time, alarm`rollover
      ensures alarm.State() == StartTimer(now, delay)
    {
      var current := nticks;
      alarm.time := (delay + current + 1) % WRAP;
      if alarm.time < current {
        alarm.rollover := true;
      } else {
        alarm.rollover := false;
      }
    }

    /** The alarm joins the list. */
    method Register(alarm: Alarm, ghost delay: nat)
      requires Linked() && alarm in known && alarm !in alarms
      modifies this`alarms, this`plan, this`plans, this`log, this`started, known`next, known`previous, head`next,
               head`previous
      ensures Linked() && alarms == [alarm] + old(alarms) && started == old(started) + {alarm}
      ensures log == old(log) + [Started(alarm, now, delay)]
      ensures plan == old(plan)[alarm := StartDeadline(now, delay)]
    {
      ghost var (before, on) := (alarms, started);
      Note(Started(alarm, now, delay));
      alarms, started := [alarm] + alarms, started + {alarm};
      Insert(alarm, before, on);
    }

    /** alt_alarm_start, for any alarm that is not registered. */
    method Start(alarm: Alarm?, delay: nat) returns (rc: int)
      requires Linked() && nticks == now % WRAP && delay < WRAP
      requires alarm != null ==> alarm in known && alarm !in alarms
      modifies this`alarms, this`plan, this`plans, this`log, this`started, known`next, known`previous, head`next,
               head`previous,
               (set a | a in known && a == alarm)`time, (set a | a in known && a == alarm)`rollover
      ensures Linked()
      ensures rc == if tickRate == 0 then -ENOTSUP else if alarm == null then -EINVAL else 0
      ensures rc != 0 ==>
                && alarms == old(alarms) && plan == old(plan) && log == old(log) && started == old(started)
                && (alarm != null ==> alarm.State() == old(alarm.State()))
      ensures rc == 0 ==>
                && alarms == [alarm] + old(alarms) && started == old(started) + {alarm}
                && log == old(log) + [Started(alarm, now, delay)]
                && plan == old(plan)[alarm := StartDeadline(now, delay)]
                && alarm.State() == StartTimer(now, delay) && Timed(alarm, plan[alarm], now)
    {
      if tickRate == 0 {
        return -ENOTSUP;
      }
      if alarm == null {
        return -EINVAL;
      }
      SetDeadline(alarm, delay);
      StartStands(now, delay);
      Register(alarm, delay);
      return 0;
    }

    /** alt_alarm_stop, for an alarm that was started at some time; or by the tick, on the answer 0. */
    method Stop(alarm: Alarm, ghost e: Event<Alarm>)
      requires Linked() && alarm in started && (e == Stopped(alarm, now) || e == Called(alarm, now, 0))
      modifies this`alarms, this`plan, this`plans, this`log, known`next, known`previous, head`next, head`previous
      ensures Linked() && alarms == Remove(old(alarms), alarm)
      ensures log == old(log) + [e] && plan == old(plan) - {alarm}
    {
      ghost var before := alarms;
      RemoveElements(before, alarm);
      Note(e);
      alarms := Remove(before, alarm);
      Unlink(alarm, before, started);
    }

    // ---- callbacks -----------------------------------------------------------------------------

    /** Where the walk goes on. */
    ghost function First(rest: seq<Alarm>): Alarm {
      if rest == [] then head else rest[0]
    }

    /**
     The list is `front`, all on time but perhaps `current`, and then `rest`, where the walk goes on, as the
     previous tick left it.
     */
    ghost predicate Walking(current: Alarm, saved: Alarm, front: seq<Alarm>, rest: seq<Alarm>)
      reads this`alarms, this`started, this`plan, this`plans, this`log, this`now, this`nticks,
            known, head
    {
      && Linked() && nticks == now % WRAP && now > 0
      && current in started && current !in rest
      && alarms == front + rest && saved == First(rest)
      && OnTime(front, plan, now, current) && OnTime(rest, plan, now - 1, null)
    }

    /**
     The alarm a callback was called for: its fields as they were, `before`, and its deadline now, if it is still
     registered; or started `again` by the callback itself, with `delay`.
     */
    ghost predicate SelfAfter(current: Alarm, before: Timer, d: Deadline, again: bool, delay: nat)
      reads this`plan, this`now, current
    {
      current in plan ==>
        if !again then plan[current] == d && current.State() == before
        else delay < WRAP && plan[current] == StartDeadline(now, delay) && current.State() == StartTimer(now, delay)
    }

    /** Stopping an alarm does not disturb the others. */
    method StopBeside(x: Alarm, ghost e: Event<Alarm>, ghost current: Alarm, ghost front: seq<Alarm>,
                      ghost rest: seq<Alarm>)
      requires Linked() && x in started && (e == Stopped(x, now) || e == Called(x, now, 0)) && now > 0
      requires OnTime(front, plan - {x}, now, current) && OnTime(rest, plan - {x}, now - 1, null)
      modifies this`alarms, this`plan, this`plans, this`log, known`next, known`previous, head`next, head`previous
      ensures Linked() && alarms == Remove(old(alarms), x)
      ensures log == old(log) + [e] && plan == old(plan) - {x}
      ensures OnTime(front, plan, now, current) && OnTime(rest, plan, now - 1, null)
    {
      Stop(x, e);
    }

    /** Stopping an alarm other than the one where the walk goes on. */
    method StopIn(x: Alarm, saved: Alarm, ghost e: Event<Alarm>, ghost current: Alarm,
                  ghost front: seq<Alarm>, ghost rest: seq<Alarm>)
      requires Walking(current, saved, front, rest) && x in started && x != saved
      requires e == Stopped(x, now) || e == Called(x, now, 0)
      modifies this`alarms, this`plan, this`plans, this`log, known`next, known`previous, head`next, head`previous
      ensures Walking(current, saved, Remove(front, x), Remove(rest, x))
      ensures log == old(log) + [e] && plan == old(plan) - {x}
    {
      RemoveFromBoth(front, rest, x);
      RemoveLater(rest, x, current);
      OnTimeWithout(front, plan, now, current, x);
      OnTimeWithout(rest, plan, now - 1, null, x);
      StopBeside(x, e, current, Remove(front, x), Remove(rest, x));
    }

    /** Starting an alarm does not disturb the others. */
    method StartBeside(x: Alarm, delay: nat, ghost current: Alarm, ghost front: seq<Alarm>, ghost rest: seq<Alarm>)
      requires Linked() && nticks == now % WRAP && now > 0 && delay < WRAP
      requires x in known && x !in alarms && x !in front && x !in rest && tickRate != 0
      requires OnTime(front, plan, now, current) && OnTime(rest, plan, now - 1, null)
      modifies this`alarms, this`plan, this`plans, this`log, this`started, known`next, known`previous, head`next,
               head`previous,
               x`time, x`rollover
      ensures Linked() && alarms == [x] + old(alarms) && started == old(started) + {x}
      ensures log == old(log) + [Started(x, now, delay)] && plan == old(plan)[x := StartDeadline(now, delay)]
      ensures OnTime(front, plan, now, current) && OnTime(rest, plan, now - 1, null)
      ensures x.State() == StartTimer(now, delay)
    {
      ghost var p := plan;
      var rc := Start(x, delay);
      forall a | a in front && a != current ensures a in known && a in plan && Timed(a, plan[a], now) {
        assert a != x && a in p && plan[a] == p[a];
      }
      forall a | a in rest ensures a in known && a in plan && Timed(a, plan[a], now - 1) {
        assert a != x && a in p && plan[a] == p[a];
      }
    }

    /** Starting an alarm while the walk is on. */
    method StartIn(x: Alarm, delay: nat, ghost saved: Alarm, ghost current: Alarm,
                   ghost front: seq<Alarm>, ghost rest: seq<Alarm>)
      requires Walking(current, saved, front, rest) && delay < WRAP
      requires x in known && x !in alarms && tickRate != 0
      modifies this`alarms, this`plan, this`plans, this`log, this`started, known`next, known`previous, head`next,
               head`previous,
               x`time, x`rollover
      ensures Walking(current, saved, [x] + front, rest) && x !in rest
      ensures log == old(log) + [Started(x, now, delay)] && plan == old(plan)[x := StartDeadline(now, delay)]
      ensures x.State() == StartTimer(now, delay)
    {
      assert forall a :: a in front || a in rest ==> a in alarms;
      StartBeside(x, delay, current, front, rest);
      StartStands(now, delay);
      OnTimePlus(x, front, plan, now, current);
      assert alarms == ([x] + front) + rest;
    }

    /**
     What a callback has done since the log was `log0`, called for `current` with `rest0` still to be visited.
     */
    ghost predicate Acting(current: Alarm, saved: Alarm, front: seq<Alarm>, rest0: seq<Alarm>, rest: seq<Alarm>,
                           log0: seq<Event<Alarm>>, es: seq<Event<Alarm>>)
      reads this`alarms, this`started, this`plan, this`plans, this`log, this`now, this`nticks,
            known, head
    {
      Walking(current, saved, front, rest) && log == log0 + es && Acted(es, now, quiet, rest0, rest)
    }

    /** It stops an alarm. */
    method StopInWalk(x: Alarm, saved: Alarm, ghost current: Alarm, ghost front: seq<Alarm>, ghost rest0: seq<Alarm>,
                      ghost rest: seq<Alarm>, ghost log0: seq<Event<Alarm>>, ghost es: seq<Event<Alarm>>)
      requires Acting(current, saved, front, rest0, rest, log0, es) && x in started && x != saved && x !in quiet
      modifies this`alarms, this`plan, this`plans, this`log, known`next, known`previous, head`next, head`previous
      ensures Acting(current, saved, Remove(front, x), rest0, Remove(rest, x), log0, es + [Stopped(x, now)])
      ensures plan == old(plan) - {x}
    {
      ActedStop(es, now, quiet, rest0, rest, x);
      StopIn(x, saved, Stopped(x, now), current, front, rest);
      assert log == log0 + (es + [Stopped(x, now)]);
    }

    /** It starts an alarm that is not registered. */
    method StartInWalk(x: Alarm, delay: nat, ghost saved: Alarm, ghost current: Alarm, ghost front: seq<Alarm>,
                       ghost rest0: seq<Alarm>, ghost rest: seq<Alarm>,
                       ghost log0: seq<Event<Alarm>>, ghost es: seq<Event<Alarm>>)
      requires Acting(current, saved, front, rest0, rest, log0, es) && delay < WRAP
      requires x in known && x !in alarms && x !in quiet && tickRate != 0
      modifies this`alarms, this`plan, this`plans, this`log, this`started, known`next, known`previous, head`next,
               head`previous, x`time, x`rollover
      ensures Acting(current, saved, [x] + front, rest0, rest, log0, es + [Started(x, now, delay)])
      ensures plan == old(plan)[x := StartDeadline(now, delay)] && x.State() == StartTimer(now, delay)
    {
      StartIn(x, delay, saved, current, front, rest);
      ActedStart(es, now, quiet, rest0, rest, x, delay);
      assert log == log0 + (es + [Started(x, now, delay)]);
    }

    /** One thing a callback may do. */
    method Act(current: Alarm, saved: Alarm, ghost front: seq<Alarm>, ghost rest0: seq<Alarm>, ghost rest: seq<Alarm>,
               ghost log0: seq<Event<Alarm>>, ghost es: seq<Event<Alarm>>,
               ghost before: Timer, ghost d: Deadline, ghost again: bool, ghost delay: nat)
      returns (ghost front': seq<Alarm>, ghost rest': seq<Alarm>, ghost es': seq<Event<Alarm>>,
               ghost again': bool, ghost delay': nat)
      requires Acting(current, saved, front, rest0, rest, log0, es) && SelfAfter(current, before, d, again, delay)
      modifies this`alarms, this`plan, this`plans, this`log, this`started, head, known
      ensures Acting(current, saved, front', rest0, rest', log0, es') && SelfAfter(current, before, d, again', delay')
    {
      front', rest', es', again', delay' := front, rest, es, again, delay;
      var x: Alarm :| x in known;
      var ticks: nat := *;
      var stop: bool := *;
      if x in quiet {
        return;
      }
      if x != saved && x in started && stop {
        StopInWalk(x, saved, current, front, rest0, rest, log0, es);
        front', rest', es' := Remove(front, x), Remove(rest, x), es + [Stopped(x, now)];
      } else if (x !in started || x.next == x) && ticks < WRAP && tickRate != 0 {
        if x in started { Alone(alarms, started, x); }
        StartInWalk(x, ticks, saved, current, front, rest0, rest, log0, es);
        front', es' := [x] + front, es + [Started(x, now, ticks)];
        if x == current { again', delay' := true, ticks; }
      }
    }

    /**
     What a callback does, called for `current` with the walk to go on at `saved`: it may start alarms that are not
     registered and stop any that was started, but not `saved`, and not those of `quiet`.
     */
    method Behave(current: Alarm, saved: Alarm, ghost front: seq<Alarm>, ghost rest: seq<Alarm>)
      returns (ghost again: bool, ghost delay: nat, ghost front': seq<Alarm>, ghost rest': seq<Alarm>,
               ghost es: seq<Event<Alarm>>)
      requires Walking(current, saved, front, rest) && current in plan
      modifies this`alarms, this`plan, this`plans, this`log, this`started, head, known
      ensures Acting(current, saved, front', rest, rest', old(log), es)
      ensures SelfAfter(current, old(current.State()), old(plan[current]), again, delay)
    {
      front', rest', es, again, delay := front, rest, [], false, 0;
      NothingDone(now, quiet, rest);
      ghost var log0, before, d := log, current.State(), plan[current];
      assert log == log0 + [];
      var k: nat := *;
      while k > 0
        invariant Acting(current, saved, front', rest, rest', log0, es)
        invariant SelfAfter(current, before, d, again, delay)
      {
        k := k - 1;
        front', rest', es, again, delay := Act(current, saved, front', rest, rest', log0, es, before, d, again, delay);
      }
    }

    /** A callback: it does that, and returns a 32-bit number, which `answers` records. */
    method Callback(current: Alarm, saved: Alarm, ghost front: seq<Alarm>, ghost rest: seq<Alarm>)
      returns (period: nat, ghost again: bool, ghost delay: nat, ghost front': seq<Alarm>, ghost rest': seq<Alarm>,
               ghost es: seq<Event<Alarm>>)
      requires Walking(current, saved, front, rest) && current in plan
      modifies this`alarms, this`plan, this`plans, this`log, this`started, this`answers, head, known
      ensures Acting(current, saved, front', rest, rest', old(log), es) && period < WRAP
      ensures SelfAfter(current, old(current.State()), old(plan[current]), again, delay)
      ensures answers == old(answers) + [Called(current, now, period)]
    {
      again, delay, front', rest', es := Behave(current, saved, front, rest);
      period := *;
      if period >= WRAP { period := 0; }
      answers := answers + [Called(current, now, period)];
    }

    /** Once the counter has wrapped, the rollover flag is cleared. */
    method ClearRollover(alarm: Alarm, ghost saved: Alarm, ghost front: seq<Alarm>, ghost rest: seq<Alarm>)
      requires Walking(alarm, saved, front, rest)
      modifies alarm`rollover
      ensures Walking(alarm, saved, front, rest)
      ensures alarm.State() == Cleared(old(alarm.State()), nticks)
    {
      if alarm.rollover && nticks == 0 {
        alarm.rollover := false;
      }
    }

    /** Adding the answer to the alarm's time, whatever that is now. */
    method AddPeriod(alarm: Alarm, period: nat)
      modifies alarm`time, alarm`rollover
      ensures alarm.State() == Rearmed(old(alarm.State()), nticks, period)
    {
      alarm.time := (alarm.time + period) % WRAP;
      if alarm.time < nticks {
        alarm.rollover := true;
      }
    }

    /** The answer is added to the fields, and they stand for what it makes of the deadline. */
    lemma AnswerStands(t: Timer, d: Deadline, again: bool, delay: nat, period: nat)
      requires nticks == now % WRAP && 0 < period < WRAP
      requires if again then delay < WRAP && d == StartDeadline(now, delay) && t == StartTimer(now, delay)
               else Ripe(t, d, now)
      ensures Stands(Rearmed(t, nticks, period), now, Answered(d, now, period))
    {
      if again { LaterStands(now, delay, period); } else { RearmStands(d, period); }
    }

    /** The callback asked to be called again. */
    method Rearm(alarm: Alarm, period: nat, ghost again: bool, ghost delay: nat, ghost before: Timer, ghost d: Deadline,
                 ghost saved: Alarm, ghost front: seq<Alarm>, ghost rest: seq<Alarm>)
      requires Walking(alarm, saved, front, rest) && 0 < period < WRAP
      requires SelfAfter(alarm, before, d, again, delay) && Ripe(before, d, now)
      modifies alarm`time, alarm`rollover, this`plan, this`plans, this`log
      ensures Walking(alarm, saved, front, rest) && (alarm in plan ==> Timed(alarm, plan[alarm], now))
      ensures log == old(log) + [Called(alarm, now, period)] && plan == Do(old(plan), Called(alarm, now, period))
    {
      if alarm in plan { AnswerStands(alarm.State(), plan[alarm], again, delay, period); }
      AddPeriod(alarm, period);
      LogAnswer(alarm, period, saved, front, rest);
    }

    ghost method LogAnswer(alarm: Alarm, period: nat, saved: Alarm, front: seq<Alarm>, rest: seq<Alarm>)
      requires Walking(alarm, saved, front, rest) && period > 0
      modifies this`plan, this`plans, this`log
      ensures Walking(alarm, saved, front, rest)
      ensures log == old(log) + [Called(alarm, now, period)] && plan == Do(old(plan), Called(alarm, now, period))
    {
      Note(Called(alarm, now, period));
    }

    method TakeAnswer(alarm: Alarm, period: nat, ghost again: bool, ghost delay: nat, ghost before: Timer,
                      ghost d: Deadline, saved: Alarm, ghost front: seq<Alarm>, ghost rest: seq<Alarm>)
      returns (ghost front': seq<Alarm>)
      requires Walking(alarm, saved, front, rest) && period < WRAP
      requires SelfAfter(alarm, before, d, again, delay) && Ripe(before, d, now)
      modifies this`alarms, this`plan, this`plans, this`log, head, known
      ensures Walking(alarm, saved, front', rest) && (alarm in plan ==> Timed(alarm, plan[alarm], now))
      ensures log == old(log) + [Called(alarm, now, period)] && plan == Do(old(plan), Called(alarm, now, period))
    {
      if period == 0 {
        RemoveAbsent(rest, alarm);
        StopIn(alarm, saved, Called(alarm, now, 0), alarm, front, rest);
        front' := Remove(front, alarm);
      } else {
        Rearm(alarm, period, again, delay, before, d, saved, front, rest);
        front' := front;
      }
    }

    /**
     The callback is called, and its answer acted on: 0 takes the alarm off the list, anything else sets it
     for that many ticks from now, or later if the callback has started it again.
     */
    method Expire(alarm: Alarm, saved: Alarm, ghost front: seq<Alarm>, ghost rest: seq<Alarm>)
      returns (ghost front': seq<Alarm>, ghost rest': seq<Alarm>, ghost es: seq<Event<Alarm>>)
      requires Walking(alarm, saved, front, rest) && alarm in plan && Ripe(alarm.State(), plan[alarm], now)
      modifies this`alarms, this`plan, this`plans, this`log, this`started, this`answers, head, known
      ensures Walking(alarm, saved, front', rest') && (alarm in plan ==> Timed(alarm, plan[alarm], now))
      ensures log == old(log) + es && es != [] && Visited(alarm, es, now, quiet, rest, rest')
      ensures answers == old(answers) + Calls(es)
    {
      var period;
      ghost var again, delay, acts;
      ghost var log0, before, d := log, alarm.State(), plan[alarm];
      period, again, delay, front', rest', acts := Callback(alarm, saved, front, rest);
      front' := TakeAnswer(alarm, period, again, delay, before, d, saved, front', rest');
      es := acts + [Called(alarm, now, period)];
      Regroup(log0, acts, [Called(alarm, now, period)]);
      CalledVisit(alarm, acts, now, quiet, rest, rest', period);
      OneCall(acts, now, quiet, Called(alarm, now, period));
    }

    // ---- the tick ------------------------------------------------------------------------------

    /** The body of the walk: what the tick does to one alarm that has been reached. */
    method Visit(alarm: Alarm, saved: Alarm, ghost front: seq<Alarm>, ghost rest: seq<Alarm>)
      returns (ghost front': seq<Alarm>, ghost rest': seq<Alarm>, ghost es: seq<Event<Alarm>>)
      requires Walking(alarm, saved, front, rest) && alarm in plan && Timed(alarm, plan[alarm], now - 1)
      modifies this`alarms, this`plan, this`plans, this`log, this`started, this`answers, head, known
      ensures Walking(alarm, saved, front', rest') && (alarm in plan ==> Timed(alarm, plan[alarm], now))
      ensures log == old(log) + es && Visited(alarm, es, now, quiet, rest, rest')
      ensures es != [] <==> old(plan[alarm]).due == now
      ensures es == [] ==> alarms == old(alarms)
      ensures answers == old(answers) + Calls(es)
    {
      TickExact(alarm.State(), now - 1, plan[alarm]);
      front', rest', es := front, rest, [];
      ClearRollover(alarm, saved, front, rest);
      if alarm.time <= nticks && !alarm.rollover {
        front', rest', es := Expire(alarm, saved, front, rest);
      }
    }

    /** How far the walk is. */
    ghost predicate AtHead(front: seq<Alarm>, rest: seq<Alarm>)
      reads this`alarms, this`started, this`plan, this`plans, this`log, this`now, this`nticks,
            known, head
    {
      && Linked() && nticks == now % WRAP && now > 0
      && alarms == front + rest
      && OnTime(front, plan, now, null) && OnTime(rest, plan, now - 1, null)
    }

    /** One iteration of the walk: visit the alarm, go on at the successor saved before. */
    method Advance(alarm: Alarm, ghost front: seq<Alarm>, ghost rest: seq<Alarm>)
      returns (next: Alarm, ghost front': seq<Alarm>, ghost rest': seq<Alarm>, ghost es: seq<Event<Alarm>>)
      requires AtHead(front, rest) && rest != [] && alarm == rest[0]
      modifies this`alarms, this`plan, this`plans, this`log, this`started, this`answers, head, known
      ensures AtHead(front', rest') && next == First(rest') && (next == head <==> rest' == [])
      ensures log == old(log) + es && Visited(alarm, es, now, quiet, rest[1..], rest')
      ensures alarm in old(plan) && (es != [] <==> old(plan[alarm]).due == now)
      ensures es == [] ==> alarms == old(alarms)
      ensures answers == old(answers) + Calls(es)
    {
      Neighbours(alarms, started, |front|);
      next := alarm.next;
      assert alarms == (front + [alarm]) + rest[1..];
      assert alarm in rest && alarm in alarms;
      forall j | 0 <= j < |rest[1..]| ensures rest[1..][j] != alarm {
        assert rest[1..][j] == alarms[|front| + 1 + j] && alarm == alarms[|front|];
      }
      front', rest', es := Visit(alarm, next, front + [alarm], rest[1..]);
      BackAtHead(front', rest');
    }

    /** The walk is over when it is back at the head. */
    lemma BackAtHead(front: seq<Alarm>, rest: seq<Alarm>)
      requires AtHead(front, rest)
      ensures First(rest) == head <==> rest == []
    {
      assert rest != [] ==> rest[0] in alarms;
    }

    /** That iteration, with the steps of the walk. */
    method Iterate(alarm: Alarm, ghost front: seq<Alarm>, ghost rest: seq<Alarm>, ghost all: seq<Alarm>,
                   ghost plan0: map<Alarm, Deadline>, ghost log0: seq<Event<Alarm>>,
                   ghost answers0: seq<Event<Alarm>>, ghost steps: seq<Step<Alarm>>)
      returns (next: Alarm, ghost front': seq<Alarm>, ghost rest': seq<Alarm>, ghost steps': seq<Step<Alarm>>)
      requires AtHead(front, rest) && rest != [] && alarm == rest[0]
      requires Walked(all, plan0, steps, rest, now, quiet) && log == log0 + EventsOf(steps)
      requires plan0 == Replay(map[], log0) && (EventsOf(steps) == [] ==> alarms == all)
      requires answers == answers0 + Calls(EventsOf(steps))
      modifies this`alarms, this`plan, this`plans, this`log, this`started, this`answers, head, known
      ensures AtHead(front', rest') && next == First(rest') && (next == head <==> rest' == [])
      ensures Walked(all, plan0, steps', rest', now, quiet) && log == log0 + EventsOf(steps')
      ensures |rest'| < |rest| && (EventsOf(steps') == [] ==> alarms == all)
      ensures answers == answers0 + Calls(EventsOf(steps'))
    {
      ghost var es;
      ghost var before := log;
      LoggedIsReplay();
      next, front', rest', es := Advance(alarm, front, rest);
      WalkOn(all, plan0, log0, before, steps, rest, es, rest', now, quiet);
      steps' := steps + [Step(rest, es)];
      Regroup(answers0, Calls(EventsOf(steps)), Calls(es));
    }

    /** The loop of the tick. */
    method Walk() returns (ghost front: seq<Alarm>, ghost steps: seq<Step<Alarm>>)
      requires AtHead([], alarms) && (First(alarms) == head <==> alarms == [])
      modifies this`alarms, this`plan, this`plans, this`log, this`started, this`answers, head, known
      ensures AtHead(front, []) && log == old(log) + EventsOf(steps)
      ensures Walked(old(alarms), old(plan), steps, [], now, quiet)
      ensures EventsOf(steps) == [] ==> alarms == old(alarms)
      ensures answers == old(answers) + Calls(EventsOf(steps))
    {
      var alarm := head.next;
      ghost var all, plan0, log0, answers0 := alarms, plan, log, answers;
      ghost var rest := alarms;
      front, steps := [], [];
      LoggedIsReplay();
      NoSteps(all, plan0, now, quiet);
      while alarm != head
        invariant AtHead(front, rest) && alarm == First(rest) && (alarm == head <==> rest == [])
        invariant Walked(all, plan0, steps, rest, now, quiet) && log == log0 + EventsOf(steps)
        invariant EventsOf(steps) == [] ==> alarms == all
        invariant answers == answers0 + Calls(EventsOf(steps))
        decreases |rest|
      {
        alarm, front, rest, steps := Iterate(alarm, front, rest, all, plan0, log0, answers0, steps);
      }
    }

    method CountTick()
      requires Valid()
      modifies this`now, this`nticks
      ensures now == old(now) + 1 && AtHead([], alarms) && (First(alarms) == head <==> alarms == [])
    {
      NextCounter(now);
      ghost var before := now;
      now := now + 1;
      nticks := (nticks + 1) % WRAP;
      Setting(before);
      BackAtHead([], alarms);
    }

    /** At the beginning of the walk every registered alarm is as the previous tick left it. */
    lemma Setting(before: nat)
      requires Linked() && nticks == now % WRAP && now == before + 1
      requires OnTime(alarms, plan, before, null)
      ensures AtHead([], alarms)
    {
      assert now - 1 == before && alarms == [] + alarms;
    }

    /**
     alt_tick.  Every alarm registered when the tick starts is visited once, in list order, except those that
     a callback stopped before their turn; an alarm started by a callback is not.  The callbacks called are those
     of the visited alarms whose deadline this is, in that order.  What becomes of the deadlines is what the calls,
     starts and stops logged make of them.
     */
    method Tick() returns (ghost r: Record<Alarm>)
      requires Valid()
      modifies this, head, known
      ensures Valid() && now == old(now) + 1
      ensures log == old(log) + r.events && Proper(r.events, now, quiet)
      ensures r.visited == Without(old(alarms), r.skipped) && r.skipped <= Stops(r.events)
      ensures CalledIn(r.events) == DueOf(r.visited, old(plan), now)
      ensures plan == Replay(old(plan), r.events)
      ensures CalledIn(r.events) == [] ==> r.events == [] && r.visited == old(alarms) == alarms
      ensures answers == old(answers) + Calls(r.events)
    {
      ghost var all, plan0, log0 := alarms, plan, log;
      LoggedIsReplay();
      CountTick();
      ghost var front, steps := Walk();
      Settled(front);
      LoggedIsReplay();
      r := Summary(steps);
      WalkIsOver(all, plan0, log0, steps, now, quiet);
    }

    /** At the end of the walk every registered alarm is on time. */
    lemma Settled(front: seq<Alarm>)
      requires AtHead(front, [])
      ensures Valid()
    {
      assert front + [] == front;
    }

    // ---- many ticks ----------------------------------------------------------------------------

    method StartIdle(x: Alarm, delay: nat)
      requires Valid() && delay < WRAP && x in known && x !in alarms && tickRate != 0
      modifies this`alarms, this`plan, this`plans, this`log, this`started, known`next, known`previous, head`next,
               head`previous, x`time, x`rollover
      ensures Valid() && log == old(log) + [Started(x, now, delay)]
    {
      var rc := Start(x, delay);
    }

    method StopIdle(x: Alarm)
      requires Valid() && x in started
      modifies this`alarms, this`plan, this`plans, this`log, known`next, known`previous, head`next, head`previous
      ensures Valid() && log == old(log) + [Stopped(x, now)]
    {
      RemoveElements(alarms, x);
      Stop(x, Stopped(x, now));
    }

    /** The program between two ticks: it starts and stops alarms, but not those of `quiet`. */
    method Between() returns (ghost es: seq<Event<Alarm>>)
      requires Valid()
      modifies this`alarms, this`plan, this`plans, this`log, this`started, head, known
      ensures Valid() && log == old(log) + es && Acts(es, now, quiet)
    {
      es := [];
      ghost var log0 := log;
      var k: nat := *;
      while k > 0 && known != {}
        invariant Valid() && log == log0 + es && Acts(es, now, quiet)
      {
        k := k - 1;
        es := StartOrStop(log0, es);
      }
    }

    /** One such call. */
    method StartOrStop(ghost log0: seq<Event<Alarm>>, ghost es: seq<Event<Alarm>>)
      returns (ghost es': seq<Event<Alarm>>)
      requires Valid() && known != {} && log == log0 + es && Acts(es, now, quiet)
      modifies this`alarms, this`plan, this`plans, this`log, this`started, head, known
      ensures Valid() && log == log0 + es' && Acts(es', now, quiet)
    {
      es' := es;
      var x: Alarm :| x in known;
      var delay: nat := *;
      var stop: bool := *;
      if x in quiet {
        return;
      }
      if x in started && stop {
        StopIdle(x);
        es' := es + [Stopped(x, now)];
      } else if (x !in started || x.next == x) && delay < WRAP && tickRate != 0 {
        if x in started { Alone(alarms, started, x); }
        StartIdle(x, delay);
        es' := es + [Started(x, now, delay)];
      }
      assert log == log0 + es';
    }

    /** A tick, seen from a quiet alarm. */
    method TickFor(a: Alarm, ghost d0: Deadline, ghost calls: seq<Call>) returns (ghost es: seq<Event<Alarm>>)
      requires Valid() && a in quiet && Runs(plan, a, d0, now, calls)
      modifies this, head, known
      ensures Valid() && now == old(now) + 1 && log == old(log) + es
      ensures Runs(plan, a, d0, now, calls + CallsOf(es, a))
      ensures answers == old(answers) + Calls(es)
    {
      ghost var all, plan0 := alarms, plan;
      ghost var r := Tick();
      es := r.events;
      TickCalls(all, plan0, r, now, quiet, a);
      RunsTick(plan0, es, a, d0, now, calls);
    }

    /** The program, and then a tick. */
    method RunTick(a: Alarm, ghost d0: Deadline, ghost log0: seq<Event<Alarm>>, ghost answers0: seq<Event<Alarm>>,
                   ghost es: seq<Event<Alarm>>)
      returns (ghost es': seq<Event<Alarm>>)
      requires Valid() && a in quiet && log == log0 + es && Runs(plan, a, d0, now, CallsOf(es, a))
      requires answers == answers0 + Calls(es)
      modifies this, head, known
      ensures Valid() && now == old(now) + 1 && log == log0 + es' && Runs(plan, a, d0, now, CallsOf(es', a))
      ensures answers == answers0 + Calls(es')
    {
      ghost var log1, plan0, calls := log, plan, CallsOf(es, a);
      LoggedIsReplay();
      ghost var acts := Between();
      LoggedIsReplay();
      ReplayConcat(map[], log1, acts);
      RunsBetween(plan0, acts, quiet, a, d0, now, calls);
      ActsLeaveAlone(acts, now, quiet, a);
      ghost var more := TickFor(a, d0, calls);
      es' := es + (acts + more);
      CallsOfConcat(acts, more, a);
      CallsOfConcat(es, acts + more, a);
      Regroup(log0, es, acts);
      Regroup(log0, es + acts, more);
      Regroup(es, acts, more);
      assert [] + CallsOf(more, a) == CallsOf(more, a);
      ActsAreNoCalls(acts, now - 1, quiet);
      CallsConcat(acts, more);
      CallsConcat(es, acts + more);
      Regroup(answers0, Calls(es), Calls(more));
      assert [] + Calls(more) == Calls(more);
    }

    /**
     Over any number of ticks, with whatever the callbacks of other alarms and the program between the ticks do:
     a quiet alarm, one that nobody but its own answers stops or starts, is called exactly on its schedule.
     */
    method RunTicks(a: Alarm, n: nat) returns (ghost es: seq<Event<Alarm>>)
      requires Valid() && a in quiet && a in plan
      modifies this, head, known
      ensures Valid() && now == old(now) + n && log == old(log) + es
      ensures var calls := CallsOf(es, a); Ticks(calls) == Schedule(old(plan)[a], now, Answers(calls))
      ensures answers == old(answers) + Calls(es)
    {
      ghost var d0, start, log0, answers0 := plan[a], now, log, answers;
      es := [];
      assert log == log0 + es && answers == answers0 + Calls(es);
      var k := 0;
      while k < n
        invariant Valid() && k <= n && now == start + k && log == log0 + es
        invariant answers == answers0 + Calls(es)
        invariant Runs(plan, a, d0, now, CallsOf(es, a))
      {
        es := RunTick(a, d0, log0, answers0, es);
        k := k + 1;
      }
      RegularIsScheduled(d0, now, CallsOf(es, a));
    }
  }
}
