/**
 What happens to the registered alarms, on values: sequences of alarms, the log of starts, stops and calls and
 what it makes of their deadlines, the record of a walk, and the schedule an alarm keeps over many ticks.
 */
module AlarmPlan {
  import opened Platform
  import opened AlarmTiming

  // ---- sequences -------------------------------------------------------------------------------

  function Remove<A(==)>(s: seq<A>, a: A): seq<A> {
    if s == [] then [] else if s[0] == a then Remove(s[1..], a) else [s[0]] + Remove(s[1..], a)
  }

  ghost predicate Distinct<A>(s: seq<A>) {
    forall i, j :: 0 <= i < j < |s| ==> s[i] != s[j]
  }

  /** Removing the element at `k` of a sequence without repetitions. */
  lemma {:induction false} RemoveAt<A>(s: seq<A>, k: nat)
    requires k < |s| && Distinct(s)
    ensures Remove(s, s[k]) == s[..k] + s[k + 1..]
  {
    var t := s[1..];
    if k == 0 {
      RemoveAbsent(t, s[0]);
    } else {
      assert Distinct(t) && t[k - 1] == s[k];
      RemoveAt(t, k - 1);
      assert s[..k] == [s[0]] + t[..k - 1] && s[k + 1..] == t[k..];
    }
  }

  lemma {:induction false} RemoveAbsent<A>(s: seq<A>, a: A)
    requires a !in s
    ensures Remove(s, a) == s
  {
    if s != [] {
      RemoveAbsent(s[1..], a);
      assert s == [s[0]] + s[1..];
    }
  }

  lemma {:induction false} RemoveElements<A>(s: seq<A>, a: A)
    ensures forall b :: b in Remove(s, a) <==> b in s && b != a
  {
    if s != [] { RemoveElements(s[1..], a); }
  }

  /** Removing another element than the first. */
  lemma RemoveLater<A>(s: seq<A>, a: A, b: A)
    requires s == [] || s[0] != a
    ensures s == [] <==> Remove(s, a) == []
    ensures s != [] ==> Remove(s, a)[0] == s[0]
    ensures b !in s ==> b !in Remove(s, a)
  {
    RemoveElements(s, a);
  }

  /** `s` without the elements of `gone`. */
  ghost function Without<A>(s: seq<A>, gone: set<A>): seq<A> {
    if s == [] then [] else if s[0] in gone then Without(s[1..], gone) else [s[0]] + Without(s[1..], gone)
  }

  lemma {:induction false} RemoveFromBoth<A>(s: seq<A>, t: seq<A>, a: A)
    ensures Remove(s + t, a) == Remove(s, a) + Remove(t, a)
  {
    if s == [] {
      assert s + t == t;
    } else {
      RemoveFromBoth(s[1..], t, a);
      var u := s + t;
      assert u[0] == s[0] && u[1..] == s[1..] + t;
      if s[0] != a {
        assert Remove(u, a) == [s[0]] + (Remove(s[1..], a) + Remove(t, a));
      }
    }
  }

  lemma {:induction false} WithoutBoth<A>(s: seq<A>, t: seq<A>, gone: set<A>)
    ensures Without(s + t, gone) == Without(s, gone) + Without(t, gone)
  {
    if s == [] {
      assert s + t == t;
    } else {
      WithoutBoth(s[1..], t, gone);
      var u := s + t;
      assert u[0] == s[0] && u[1..] == s[1..] + t;
      if s[0] !in gone {
        assert Without(u, gone) == [s[0]] + (Without(s[1..], gone) + Without(t, gone));
      }
    }
  }

  lemma {:induction false} WithoutMore<A>(s: seq<A>, gone: set<A>, a: A)
    ensures Remove(Without(s, gone), a) == Without(s, gone + {a})
  {
    if s != [] {
      WithoutMore(s[1..], gone, a);
      if s[0] !in gone {
        var t := [s[0]] + Without(s[1..], gone);
        assert t[0] == s[0] && t[1..] == Without(s[1..], gone) && Without(s, gone) == t;
      }
    }
  }

  /** Only the elements of `gone` that occur matter. */
  lemma {:induction false} WithoutSame<A>(s: seq<A>, gone: set<A>, gone': set<A>)
    requires forall a :: a in s ==> (a in gone <==> a in gone')
    ensures Without(s, gone) == Without(s, gone')
  {
    if s != [] { WithoutSame(s[1..], gone, gone'); }
  }

  lemma {:induction false} WithoutNone<A>(s: seq<A>, gone: set<A>)
    requires forall a :: a in s ==> a !in gone
    ensures Without(s, gone) == s
  {
    if s != [] { WithoutNone(s[1..], gone); }
  }

  lemma {:induction false} WithoutAgain<A>(s: seq<A>, gone: set<A>, more: set<A>)
    ensures Without(Without(s, gone), more) == Without(s, gone + more)
  {
    if s != [] {
      WithoutAgain(s[1..], gone, more);
      if s[0] !in gone {
        var t := [s[0]] + Without(s[1..], gone);
        assert t[0] == s[0] && t[1..] == Without(s[1..], gone) && Without(s, gone) == t;
      }
    }
  }

  lemma {:induction false} WithoutDistinct<A>(s: seq<A>, gone: set<A>)
    requires Distinct(s)
    ensures Distinct(Without(s, gone))
  {
    if s != [] {
      WithoutDistinct(s[1..], gone);
      WithoutElements(s[1..], gone);
    }
  }

  /** What has been visited is not still to be visited. */
  lemma StillToVisit<A>(all: seq<A>, skipped: set<A>, visited: seq<A>, rest: seq<A>)
    requires Distinct(all) && visited + rest == Without(all, skipped)
    ensures Distinct(rest) && forall a :: a in visited ==> a !in rest
  {
    WithoutDistinct(all, skipped);
    var s := visited + rest;
    forall i, j | 0 <= i < j < |rest| ensures rest[i] != rest[j] {
      assert s[|visited| + i] == rest[i] && s[|visited| + j] == rest[j];
    }
    forall i, j | 0 <= i < |visited| && 0 <= j < |rest| ensures visited[i] != rest[j] {
      assert s[i] == visited[i] && s[|visited| + j] == rest[j];
    }
  }

  lemma {:induction false} WithoutShorter<A>(s: seq<A>, gone: set<A>)
    ensures |Without(s, gone)| <= |s|
  {
    if s != [] { WithoutShorter(s[1..], gone); }
  }

  /** One more element visited, and those of `stopped` that were still to come skipped. */
  lemma OneVisited<A>(all: seq<A>, skipped: set<A>, visited: seq<A>, rest: seq<A>, stopped: set<A>)
    requires Distinct(all) && visited + rest == Without(all, skipped) && rest != []
    ensures var now := set a | a in stopped && a in rest[1..];
            (visited + [rest[0]]) + Without(rest[1..], stopped) == Without(all, skipped + now)
  {
    var now := set a | a in stopped && a in rest[1..];
    var (v, later) := (visited + [rest[0]], rest[1..]);
    assert v + later == visited + rest;
    WithoutAgain(all, skipped, now);
    WithoutBoth(v, later, now);
    StillToVisit(all, skipped, v, later);
    WithoutNone(v, now);
    WithoutSame(later, now, stopped);
  }

  lemma {:induction false} WithoutElements<A>(s: seq<A>, gone: set<A>)
    ensures forall a :: a in Without(s, gone) <==> a in s && a !in gone
  {
    if s != [] { WithoutElements(s[1..], gone); }
  }

  lemma StillDistinct<A>(s: seq<A>, k: nat)
    requires k < |s| && Distinct(s)
    ensures var t := s[..k] + s[k + 1..];
            && Distinct(t)
            && (forall a :: a in t <==> a in s && a != s[k])
  {
    var t := s[..k] + s[k + 1..];
    forall a | a in s && a != s[k] ensures a in t {
      var i :| 0 <= i < |s| && s[i] == a;
      assert t[if i < k then i else i - 1] == a;
    }
  }

  // ---- the log ---------------------------------------------------------------------------------

  /** An alarm was started or stopped, or its callback was called and its answer acted on. */
  datatype Event<A> =
    | Started(a: A, tick: nat, delay: nat)
    | Stopped(a: A, tick: nat)
    | Called(a: A, tick: nat, answer: nat)

  /** The deadline of a called alarm after its answer; its callback may have started it again. */
  function Answered(d: Deadline, tick: nat, answer: nat): Deadline
    requires answer > 0
  {
    if d.due == tick then After(d, answer) else Later(d, tick, answer)
  }

  /** What an event does to the deadlines of the registered alarms. */
  ghost function Do<A>(plan: map<A, Deadline>, e: Event<A>): map<A, Deadline> {
    match e
    case Started(a, tick, delay) => plan[a := StartDeadline(tick, delay)]
    case Stopped(a, _) => plan - {a}
    case Called(a, tick, answer) =>
      if answer == 0 then plan - {a}
      else if a in plan then plan[a := Answered(plan[a], tick, answer)]
      else plan
  }

  /** The deadlines after a sequence of events. */
  ghost function Replay<A>(plan: map<A, Deadline>, es: seq<Event<A>>): map<A, Deadline>
    decreases |es|
  {
    if es == [] then plan else Do(Replay(plan, es[..|es| - 1]), es[|es| - 1])
  }

  lemma ReplayMore<A>(plan: map<A, Deadline>, es: seq<Event<A>>, e: Event<A>)
    ensures Replay(plan, es + [e]) == Do(Replay(plan, es), e)
  {
    assert (es + [e])[..|es|] == es;
  }

  lemma {:induction false} ReplayConcat<A>(plan: map<A, Deadline>, es: seq<Event<A>>, fs: seq<Event<A>>)
    ensures Replay(plan, es + fs) == Replay(Replay(plan, es), fs)
    decreases |fs|
  {
    if fs == [] {
      assert es + fs == es;
    } else {
      var init := fs[..|fs| - 1];
      ReplayConcat(plan, es, init);
      assert es + fs == (es + init) + [fs[|fs| - 1]];
      ReplayMore(plan, es + init, fs[|fs| - 1]);
    }
  }

  /** `plans` lists the deadlines before, between and after the events of a log that begins with no alarms. */
  ghost predicate Traces<A>(plans: seq<map<A, Deadline>>, log: seq<Event<A>>) {
    && |plans| == |log| + 1 && plans[0] == map[]
    && forall n {:trigger log[n]} :: 0 <= n < |log| ==> plans[n + 1] == Do(plans[n], log[n])
  }

  lemma TraceMore<A>(plans: seq<map<A, Deadline>>, log: seq<Event<A>>, e: Event<A>)
    requires Traces(plans, log)
    ensures Traces(plans + [Do(plans[|log|], e)], log + [e])
  {
    var (plans', log') := (plans + [Do(plans[|log|], e)], log + [e]);
    forall n | 0 <= n < |log'| ensures plans'[n + 1] == Do(plans'[n], log'[n]) {
      if n < |log| { assert log'[n] == log[n]; }
    }
  }

  /** The last of them is the replay of the log. */
  lemma {:induction false} TraceIsReplay<A>(plans: seq<map<A, Deadline>>, log: seq<Event<A>>)
    requires Traces(plans, log)
    ensures plans[|log|] == Replay(map[], log)
    decreases |log|
  {
    if log != [] {
      var init := log[..|log| - 1];
      forall n | 0 <= n < |init| ensures plans[n + 1] == Do(plans[n], init[n]) { assert init[n] == log[n]; }
      TraceIsReplay(plans[..|log|], init);
      assert plans[|log|] == Do(plans[|log| - 1], log[|log| - 1]);
    }
  }

  /** Every alarm of `s` has a deadline, and no other. */
  ghost predicate Covers<A>(plan: map<A, Deadline>, s: seq<A>) {
    (forall a :: a in plan ==> a in s) && (forall a :: a in s ==> a in plan)
  }

  /** No event is about `a`. */
  ghost predicate Spares<A>(es: seq<Event<A>>, a: A) {
    forall i :: 0 <= i < |es| ==> es[i].a != a
  }

  /** The alarms stopped in a sequence of events. */
  ghost function Stops<A>(es: seq<Event<A>>): set<A> {
    set i | 0 <= i < |es| && es[i].Stopped? :: es[i].a
  }

  lemma StopsNone<A>()
    ensures Stops<A>([]) == {}
  {
  }

  /** An alarm that is spared keeps its deadline. */
  lemma {:induction false} Spared<A>(plan: map<A, Deadline>, es: seq<Event<A>>, a: A)
    requires Spares(es, a)
    ensures a in Replay(plan, es) <==> a in plan
    ensures a in plan ==> Replay(plan, es)[a] == plan[a]
    decreases |es|
  {
    if es != [] {
      var init := es[..|es| - 1];
      Spared(plan, init, a);
    }
  }

  /** An alarm that was stopped is gone, unless it was started again: only a start brings an alarm in. */
  lemma {:induction false} StoppedIsGone<A>(plan: map<A, Deadline>, es: seq<Event<A>>, a: A)
    requires forall i :: 0 <= i < |es| && es[i].a == a ==> !es[i].Started?
    ensures a in Replay(plan, es) ==> a in plan && a !in Stops(es)
    decreases |es|
  {
    if es == [] {
      StopsNone<A>();
    } else {
      var (init, e) := (es[..|es| - 1], es[|es| - 1]);
      assert es == init + [e];
      StopsMore(init, e);
      assert forall i :: 0 <= i < |init| ==> init[i] == es[i];
      StoppedIsGone(plan, init, a);
    }
  }

  /** Only starts and stops at tick `now`, and none of the alarms of `quiet`. */
  ghost predicate Acts<A>(es: seq<Event<A>>, now: nat, quiet: set<A>) {
    forall i :: 0 <= i < |es| ==> !es[i].Called? && es[i].tick == now && es[i].a !in quiet
  }

  /** What a tick logs: calls, and what the callbacks did. */
  ghost predicate Proper<A>(es: seq<Event<A>>, now: nat, quiet: set<A>) {
    forall i :: 0 <= i < |es| ==>
      es[i].tick == now && if es[i].Called? then es[i].answer < WRAP else es[i].a !in quiet
  }

  /** The alarms called, in order. */
  ghost function CalledIn<A>(es: seq<Event<A>>): seq<A> {
    if es == [] then [] else
    var e := es[|es| - 1];
    CalledIn(es[..|es| - 1]) + if e.Called? then [e.a] else []
  }

  lemma {:induction false} CalledInConcat<A>(es: seq<Event<A>>, fs: seq<Event<A>>)
    ensures CalledIn(es + fs) == CalledIn(es) + CalledIn(fs)
    decreases |fs|
  {
    if fs == [] {
      assert es + fs == es;
    } else {
      var u := es + fs;
      assert u[..|u| - 1] == es + fs[..|fs| - 1] && u[|u| - 1] == fs[|fs| - 1];
      CalledInConcat(es, fs[..|fs| - 1]);
    }
  }

  lemma {:induction false} ActsCallNobody<A>(es: seq<Event<A>>, now: nat, quiet: set<A>)
    requires Acts(es, now, quiet)
    ensures CalledIn(es) == []
    decreases |es|
  {
    if es != [] {
      assert !es[|es| - 1].Called?;
      ActsCallNobody(es[..|es| - 1], now, quiet);
    }
  }

  /** The calls of a sequence of events, with their answers. */
  ghost function Calls<A>(es: seq<Event<A>>): seq<Event<A>> {
    if es == [] then [] else
    var e := es[|es| - 1];
    Calls(es[..|es| - 1]) + if e.Called? then [e] else []
  }

  lemma {:induction false} CallsConcat<A>(es: seq<Event<A>>, fs: seq<Event<A>>)
    ensures Calls(es + fs) == Calls(es) + Calls(fs)
    decreases |fs|
  {
    if fs == [] {
      assert es + fs == es;
    } else {
      var u := es + fs;
      assert u[..|u| - 1] == es + fs[..|fs| - 1] && u[|u| - 1] == fs[|fs| - 1];
      CallsConcat(es, fs[..|fs| - 1]);
    }
  }

  lemma {:induction false} ActsAreNoCalls<A>(es: seq<Event<A>>, now: nat, quiet: set<A>)
    requires Acts(es, now, quiet)
    ensures Calls(es) == []
    decreases |es|
  {
    if es != [] {
      assert !es[|es| - 1].Called?;
      ActsAreNoCalls(es[..|es| - 1], now, quiet);
    }
  }

  /** What a callback has done, and then its call. */
  lemma OneCall<A>(acts: seq<Event<A>>, now: nat, quiet: set<A>, e: Event<A>)
    requires Acts(acts, now, quiet) && e.Called?
    ensures Calls(acts + [e]) == [e]
  {
    ActsAreNoCalls(acts, now, quiet);
    assert (acts + [e])[..|acts|] == acts;
  }

  // ---- callbacks -------------------------------------------------------------------------------

  /** What a callback has done, called with `rest0` still to be visited. */
  ghost predicate Acted<A>(es: seq<Event<A>>, now: nat, quiet: set<A>, rest0: seq<A>, rest: seq<A>) {
    && Acts(es, now, quiet) && rest == Without(rest0, Stops(es))
    && forall a :: a in rest ==> Spares(es, a)
  }

  lemma NothingDone<A>(now: nat, quiet: set<A>, rest: seq<A>)
    ensures Acted([], now, quiet, rest, rest)
  {
    StopsNone<A>();
    WithoutNone(rest, {});
  }

  lemma StopsMore<A>(es: seq<Event<A>>, e: Event<A>)
    ensures Stops(es + [e]) == if e.Stopped? then Stops(es) + {e.a} else Stops(es)
  {
    var fs := es + [e];
    forall a | a in Stops(es) ensures a in Stops(fs) {
      var i :| 0 <= i < |es| && es[i].Stopped? && es[i].a == a;
      assert fs[i] == es[i];
    }
    if e.Stopped? { assert fs[|es|] == e; }
    forall a | a in Stops(fs) ensures a in Stops(es) || (e.Stopped? && a == e.a) {
      var i :| 0 <= i < |fs| && fs[i].Stopped? && fs[i].a == a;
      if i < |es| { assert es[i] == fs[i]; }
    }
  }

  lemma ActedStop<A>(es: seq<Event<A>>, now: nat, quiet: set<A>, rest0: seq<A>, rest: seq<A>, a: A)
    requires Acted(es, now, quiet, rest0, rest) && a !in quiet
    ensures Acted(es + [Stopped(a, now)], now, quiet, rest0, Remove(rest, a))
  {
    var e := Stopped(a, now);
    StopsMore(es, e);
    WithoutMore(rest0, Stops(es), a);
    RemoveElements(rest, a);
  }

  lemma ActedStart<A>(es: seq<Event<A>>, now: nat, quiet: set<A>, rest0: seq<A>, rest: seq<A>, a: A, delay: nat)
    requires Acted(es, now, quiet, rest0, rest) && a !in quiet && a !in rest
    ensures Acted(es + [Started(a, now, delay)], now, quiet, rest0, rest)
  {
    var e := Started(a, now, delay);
    StopsMore(es, e);
  }

  // ---- the record of a walk --------------------------------------------------------------------

  /** What a tick has done so far: alarms visited, alarms stopped before their turn, and what was logged. */
  datatype Record<A> = Record(visited: seq<A>, skipped: set<A>, events: seq<Event<A>>)

  /** Those of `s` whose deadline is `now`. */
  ghost function DueOf<A>(s: seq<A>, plan: map<A, Deadline>, now: nat): seq<A> {
    if s == [] then [] else
    var a := s[|s| - 1];
    DueOf(s[..|s| - 1], plan, now) + if a in plan && plan[a].due == now then [a] else []
  }

  /** Visiting one alarm: not called, nothing happens; called, its callback acts, and then its answer. */
  ghost predicate Visited<A>(a: A, es: seq<Event<A>>, now: nat, quiet: set<A>, rest: seq<A>, rest': seq<A>) {
    || (es == [] && rest' == rest)
    || (es != [] && Acted(es[..|es| - 1], now, quiet, rest, rest')
          && es[|es| - 1].Called? && es[|es| - 1] == Called(a, now, es[|es| - 1].answer)
          && es[|es| - 1].answer < WRAP)
  }

  lemma CalledVisit<A>(a: A, acts: seq<Event<A>>, now: nat, quiet: set<A>, rest: seq<A>, rest': seq<A>, answer: nat)
    requires Acted(acts, now, quiet, rest, rest') && answer < WRAP
    ensures Visited(a, acts + [Called(a, now, answer)], now, quiet, rest, rest')
  {
    var es := acts + [Called(a, now, answer)];
    assert es[..|es| - 1] == acts;
  }

  /**
   The walk so far, in a tick that began with the alarms `all` and deadlines `plan0`: all but `rest` have been
   visited, or were stopped first; those called are exactly those visited that were due.
   */
  ghost predicate SoFar<A>(all: seq<A>, plan0: map<A, Deadline>, rest: seq<A>, r: Record<A>, now: nat, quiet: set<A>) {
    && Distinct(all) && Covers(plan0, all)
    && r.visited + rest == Without(all, r.skipped) && r.skipped <= Stops(r.events)
    && CalledIn(r.events) == DueOf(r.visited, plan0, now)
    && Proper(r.events, now, quiet)
    && (forall a :: a in rest ==> Spares(r.events, a))
    && (CalledIn(r.events) == [] ==> r.events == [])
  }

  ghost function Blank<A>(): Record<A> {
    Record([], {}, [])
  }

  lemma NobodyCalled<A>(plan0: map<A, Deadline>, now: nat)
    ensures CalledIn<A>([]) == [] && DueOf<A>([], plan0, now) == []
  {
  }

  lemma NothingYet<A>(all: seq<A>, plan0: map<A, Deadline>, now: nat, quiet: set<A>)
    requires Distinct(all) && Covers(plan0, all)
    ensures SoFar(all, plan0, all, Blank(), now, quiet)
  {
    WithoutNone(all, {});
    NobodyCalled<A>(plan0, now);
    assert Blank<A>().visited + all == all;
  }

  /** The record after visiting one more alarm. */
  ghost function Next<A>(r: Record<A>, rest: seq<A>, es: seq<Event<A>>): Record<A>
    requires rest != []
  {
    Record(r.visited + [rest[0]], r.skipped + (set a | a in Stops(es) && a in rest[1..]), r.events + es)
  }

  lemma StopsConcat<A>(es: seq<Event<A>>, fs: seq<Event<A>>)
    ensures Stops(es) <= Stops(es + fs) && Stops(fs) <= Stops(es + fs)
  {
    var u := es + fs;
    forall a | a in Stops(es) ensures a in Stops(u) {
      var i :| 0 <= i < |es| && es[i].Stopped? && es[i].a == a;
      assert u[i] == es[i];
    }
    forall a | a in Stops(fs) ensures a in Stops(u) {
      var i :| 0 <= i < |fs| && fs[i].Stopped? && fs[i].a == a;
      assert u[|es| + i] == fs[i];
    }
  }

  lemma ProperConcat<A>(es: seq<Event<A>>, fs: seq<Event<A>>, now: nat, quiet: set<A>)
    requires Proper(es, now, quiet) && Proper(fs, now, quiet)
    ensures Proper(es + fs, now, quiet)
  {
    var u := es + fs;
    forall i | 0 <= i < |u|
      ensures u[i].tick == now && if u[i].Called? then u[i].answer < WRAP else u[i].a !in quiet
    {
      if i < |es| { assert u[i] == es[i]; } else { assert u[i] == fs[i - |es|]; }
    }
  }

  /** What a visit logs: at most the one call, and nothing about the alarms still to be visited. */
  lemma VisitLogs<A>(a: A, es: seq<Event<A>>, now: nat, quiet: set<A>, rest: seq<A>, rest': seq<A>)
    requires Visited(a, es, now, quiet, rest, rest') && a !in rest
    ensures Proper(es, now, quiet) && rest' == Without(rest, Stops(es))
    ensures CalledIn(es) == if es == [] then [] else [a]
    ensures forall b :: b in rest' ==> Spares(es, b)
  {
    if es == [] {
      StopsNone<A>();
      WithoutNone(rest, {});
    } else {
      var (acts, e) := (es[..|es| - 1], es[|es| - 1]);
      assert es == acts + [e];
      ActsCallNobody(acts, now, quiet);
      StopsMore(acts, e);
      WithoutElements(rest, Stops(acts));
      forall i | 0 <= i < |es|
        ensures es[i].tick == now && if es[i].Called? then es[i].answer < WRAP else es[i].a !in quiet
      {
        if i < |acts| { assert es[i] == acts[i]; }
      }
    }
  }

  lemma CallsStep<A>(plan0: map<A, Deadline>, r: Record<A>, now: nat, es: seq<Event<A>>, a: A)
    requires CalledIn(r.events) == DueOf(r.visited, plan0, now) && (CalledIn(r.events) == [] ==> r.events == [])
    requires CalledIn(es) == if es == [] then [] else [a]
    requires a in plan0 && (es != [] <==> plan0[a].due == now)
    ensures CalledIn(r.events + es) == DueOf(r.visited + [a], plan0, now)
    ensures CalledIn(r.events + es) == [] ==> r.events + es == []
  {
    CalledInConcat(r.events, es);
    var visited := r.visited + [a];
    assert visited[..|visited| - 1] == r.visited && visited[|visited| - 1] == a;
  }

  lemma OneStep<A>(all: seq<A>, plan0: map<A, Deadline>, rest: seq<A>, r: Record<A>, now: nat, quiet: set<A>,
                   es: seq<Event<A>>, rest': seq<A>)
    requires SoFar(all, plan0, rest, r, now, quiet) && rest != []
    requires Visited(rest[0], es, now, quiet, rest[1..], rest')
    requires rest[0] in plan0 && (es != [] <==> plan0[rest[0]].due == now)
    ensures |rest'| < |rest| && SoFar(all, plan0, rest', Next(r, rest, es), now, quiet)
  {
    var a := rest[0];
    var visited := r.visited + [a];
    StillToVisit(all, r.skipped, r.visited, rest);
    assert a !in rest[1..];
    VisitLogs(a, es, now, quiet, rest[1..], rest');
    OneVisited(all, r.skipped, r.visited, rest, Stops(es));
    WithoutShorter(rest[1..], Stops(es));
    WithoutElements(rest[1..], Stops(es));
    StopsConcat(r.events, es);
    ProperConcat(r.events, es, now, quiet);
    CallsStep(plan0, r, now, es, a);
    forall b | b in rest' ensures Spares(r.events + es, b) { assert b in rest; }
  }

  /** The alarm to be visited next has its turn, its deadline as the tick found it. */
  lemma ToVisit<A>(all: seq<A>, plan0: map<A, Deadline>, rest: seq<A>, r: Record<A>, now: nat, quiet: set<A>)
    requires SoFar(all, plan0, rest, r, now, quiet) && rest != []
    ensures rest[0] in plan0 && rest[0] in Replay(plan0, r.events)
    ensures Replay(plan0, r.events)[rest[0]] == plan0[rest[0]]
  {
    var a := rest[0];
    WithoutElements(all, r.skipped);
    assert a in rest && a in r.visited + rest;
    Spared(plan0, r.events, a);
  }

  /** An iteration of the walk, begun with `rest` still to be visited: what it logged. */
  datatype Step<A> = Step(rest: seq<A>, events: seq<Event<A>>)

  ghost function EventsOf<A>(steps: seq<Step<A>>): seq<Event<A>> {
    if steps == [] then [] else EventsOf(steps[..|steps| - 1]) + steps[|steps| - 1].events
  }

  /**
   The walk took these steps to where `rest` is still to be visited: each visited the next alarm, and called it if
   it was due.
   */
  ghost predicate Walked<A>(all: seq<A>, plan0: map<A, Deadline>, steps: seq<Step<A>>, rest: seq<A>, now: nat,
                            quiet: set<A>)
    decreases |steps|
  {
    if steps == [] then rest == all else
    var (before, step) := (steps[..|steps| - 1], steps[|steps| - 1]);
    var plan := Replay(plan0, EventsOf(before));
    && Walked(all, plan0, before, step.rest, now, quiet)
    && step.rest != [] && step.rest[0] in plan
    && (step.events != [] <==> plan[step.rest[0]].due == now)
    && Visited(step.rest[0], step.events, now, quiet, step.rest[1..], rest)
  }

  lemma NoSteps<A>(all: seq<A>, plan0: map<A, Deadline>, now: nat, quiet: set<A>)
    ensures Walked(all, plan0, [], all, now, quiet)
    ensures EventsOf<A>([]) == [] && Calls(EventsOf<A>([])) == []
  {
  }

  /** One more iteration; `log` is as it found it. */
  lemma WalkOn<A>(all: seq<A>, plan0: map<A, Deadline>, log0: seq<Event<A>>, log: seq<Event<A>>, steps: seq<Step<A>>,
                  rest: seq<A>, es: seq<Event<A>>, rest': seq<A>, now: nat, quiet: set<A>)
    requires Walked(all, plan0, steps, rest, now, quiet) && rest != []
    requires plan0 == Replay(map[], log0) && log == log0 + EventsOf(steps)
    requires Visited(rest[0], es, now, quiet, rest[1..], rest')
    requires var plan := Replay(map[], log);
             rest[0] in plan && (es != [] <==> plan[rest[0]].due == now)
    ensures Walked(all, plan0, steps + [Step(rest, es)], rest', now, quiet) && |rest'| < |rest|
    ensures log + es == log0 + EventsOf(steps + [Step(rest, es)])
    ensures EventsOf(steps + [Step(rest, es)]) == [] ==> EventsOf(steps) == es == []
    ensures Calls(EventsOf(steps + [Step(rest, es)])) == Calls(EventsOf(steps)) + Calls(es)
  {
    var steps' := steps + [Step(rest, es)];
    assert steps'[..|steps|] == steps;
    ReplayConcat(map[], log0, EventsOf(steps));
    Regroup(log0, EventsOf(steps), es);
    CallsConcat(EventsOf(steps), es);
    if es == [] {
      WithoutNone(rest[1..], {});
    } else {
      WithoutShorter(rest[1..], Stops(es[..|es| - 1]));
    }
  }

  /** The record of the steps. */
  ghost function Summary<A>(steps: seq<Step<A>>): Record<A> {
    if steps == [] then Blank() else
    var (before, step) := (Summary(steps[..|steps| - 1]), steps[|steps| - 1]);
    if step.rest == [] then before else Next(before, step.rest, step.events)
  }

  /** It accounts for the walk. */
  lemma {:induction false} WalkedIsSoFar<A>(all: seq<A>, plan0: map<A, Deadline>, steps: seq<Step<A>>, rest: seq<A>,
                                            now: nat, quiet: set<A>)
    requires Walked(all, plan0, steps, rest, now, quiet) && Distinct(all) && Covers(plan0, all)
    ensures SoFar(all, plan0, rest, Summary(steps), now, quiet) && Summary(steps).events == EventsOf(steps)
    decreases |steps|
  {
    if steps == [] {
      NothingYet(all, plan0, now, quiet);
    } else {
      var (before, step) := (steps[..|steps| - 1], steps[|steps| - 1]);
      WalkedIsSoFar(all, plan0, before, step.rest, now, quiet);
      ToVisit(all, plan0, step.rest, Summary(before), now, quiet);
      OneStep(all, plan0, step.rest, Summary(before), now, quiet, step.events, rest);
    }
  }

  /** When the walk is over, all but those skipped have been visited; all, if nobody was called. */
  lemma WalkIsOver<A>(all: seq<A>, plan0: map<A, Deadline>, log0: seq<Event<A>>, steps: seq<Step<A>>, now: nat,
                      quiet: set<A>)
    requires Walked(all, plan0, steps, [], now, quiet) && Distinct(all) && Covers(plan0, all)
    requires plan0 == Replay(map[], log0)
    ensures var r := Summary(steps);
            && r.events == EventsOf(steps) && Proper(r.events, now, quiet)
            && r.visited == Without(all, r.skipped) && r.skipped <= Stops(r.events)
            && CalledIn(r.events) == DueOf(r.visited, plan0, now)
            && (CalledIn(r.events) == [] ==> r.events == [] && r.visited == all)
            && Replay(map[], log0 + r.events) == Replay(plan0, r.events)
  {
    var r := Summary(steps);
    WalkedIsSoFar(all, plan0, steps, [], now, quiet);
    assert r.visited + [] == r.visited;
    ReplayConcat(map[], log0, r.events);
    if r.events == [] {
      StopsNone<A>();
      assert r.skipped == {};
      WithoutNone(all, {});
    }
  }

  lemma Regroup<T>(a: seq<T>, b: seq<T>, c: seq<T>)
    ensures (a + b) + c == a + (b + c)
  {
  }

  // ---- one alarm over many ticks ---------------------------------------------------------------

  datatype Call = Call(tick: nat, answer: nat)

  /** The calls of one alarm. */
  ghost function CallsOf<A>(es: seq<Event<A>>, a: A): seq<Call> {
    if es == [] then [] else
    var e := es[|es| - 1];
    CallsOf(es[..|es| - 1], a) + if e.Called? && e.a == a then [Call(e.tick, e.answer)] else []
  }

  function Ticks(calls: seq<Call>): seq<nat> {
    seq(|calls|, i requires 0 <= i < |calls| => calls[i].tick)
  }

  function Answers(calls: seq<Call>): seq<nat> {
    seq(|calls|, i requires 0 <= i < |calls| => calls[i].answer)
  }

  lemma {:induction false} CallsOfConcat<A>(es: seq<Event<A>>, fs: seq<Event<A>>, a: A)
    ensures CallsOf(es + fs, a) == CallsOf(es, a) + CallsOf(fs, a)
    decreases |fs|
  {
    if fs == [] {
      assert es + fs == es;
    } else {
      var u := es + fs;
      assert u[..|u| - 1] == es + fs[..|fs| - 1] && u[|u| - 1] == fs[|fs| - 1];
      CallsOfConcat(es, fs[..|fs| - 1], a);
    }
  }

  /** Nobody starts or stops the alarm. */
  ghost predicate Undisturbed<A>(es: seq<Event<A>>, a: A) {
    forall i :: 0 <= i < |es| && es[i].a == a ==> es[i].Called?
  }

  /** Whether an alarm is registered, and for when. */
  datatype Slot = Off | On(d: Deadline)

  ghost function SlotOf<A>(plan: map<A, Deadline>, a: A): Slot {
    if a in plan then On(plan[a]) else Off
  }

  /** What its own answers make of it. */
  function Follow(slot: Slot, calls: seq<Call>): Slot
    decreases |calls|
  {
    if calls == [] then slot else
    var answer := calls[|calls| - 1].answer;
    match Follow(slot, calls[..|calls| - 1])
    case Off => Off
    case On(d) => if answer == 0 then Off else On(After(d, answer))
  }

  /** Each call came at the deadline. */
  predicate Regular(slot: Slot, calls: seq<Call>)
    decreases |calls|
  {
    calls != [] ==>
      var before := Follow(slot, calls[..|calls| - 1]);
      Regular(slot, calls[..|calls| - 1]) && before.On? && calls[|calls| - 1].tick == before.d.due
  }

  lemma SlotAfterOne<A>(plan: map<A, Deadline>, e: Event<A>, a: A)
    ensures e.a != a ==> SlotOf(Do(plan, e), a) == SlotOf(plan, a)
    ensures e.a == a && e.Called? && a in plan && plan[a].due == e.tick ==>
              SlotOf(Do(plan, e), a) == if e.answer == 0 then Off else On(After(plan[a], e.answer))
  {
  }

  lemma {:induction false} SlotAfter<A>(plan: map<A, Deadline>, es: seq<Event<A>>, a: A)
    requires Undisturbed(es, a) && Regular(SlotOf(plan, a), CallsOf(es, a))
    ensures SlotOf(Replay(plan, es), a) == Follow(SlotOf(plan, a), CallsOf(es, a))
    decreases |es|
  {
    if es != [] {
      var (init, e) := (es[..|es| - 1], es[|es| - 1]);
      var (before, calls) := (CallsOf(init, a), CallsOf(es, a));
      assert forall i :: 0 <= i < |init| ==> init[i] == es[i];
      if e.a == a {
        assert e.Called? && calls == before + [Call(e.tick, e.answer)];
        assert calls[..|calls| - 1] == before && calls[|calls| - 1] == Call(e.tick, e.answer);
      } else {
        assert calls == before + [] == before;
      }
      SlotAfter(plan, init, a);
      SlotAfterOne(Replay(plan, init), e, a);
    }
  }

  lemma {:induction false} ActsLeaveAlone<A>(es: seq<Event<A>>, now: nat, quiet: set<A>, a: A)
    requires Acts(es, now, quiet) && a in quiet
    ensures Undisturbed(es, a) && CallsOf(es, a) == []
    decreases |es|
  {
    if es != [] {
      assert !es[|es| - 1].Called?;
      ActsLeaveAlone(es[..|es| - 1], now, quiet, a);
    }
  }

  lemma {:induction false} CountCalls<A>(es: seq<Event<A>>, now: nat, quiet: set<A>, a: A)
    requires Proper(es, now, quiet)
    ensures |CallsOf(es, a)| == multiset(CalledIn(es))[a]
    ensures forall i :: 0 <= i < |CallsOf(es, a)| ==> CallsOf(es, a)[i].tick == now
    decreases |es|
  {
    if es != [] {
      CountCalls(es[..|es| - 1], now, quiet, a);
      assert es[|es| - 1].tick == now;
    }
  }

  lemma {:induction false} DueOnce<A>(s: seq<A>, plan: map<A, Deadline>, now: nat, a: A)
    requires Distinct(s)
    ensures multiset(DueOf(s, plan, now))[a] == if a in s && a in plan && plan[a].due == now then 1 else 0
    decreases |s|
  {
    if s != [] {
      var init := s[..|s| - 1];
      assert s == init + [s[|s| - 1]];
      DueOnce(init, plan, now, a);
    }
  }

  /** In a whole tick a quiet alarm is called once if it is due, and otherwise not. */
  lemma TickCalls<A>(all: seq<A>, plan0: map<A, Deadline>, r: Record<A>, now: nat, quiet: set<A>, a: A)
    requires Distinct(all) && Covers(plan0, all) && Proper(r.events, now, quiet) && a in quiet
    requires r.visited == Without(all, r.skipped) && r.skipped <= Stops(r.events)
    requires CalledIn(r.events) == DueOf(r.visited, plan0, now)
    ensures var calls := CallsOf(r.events, a);
            && |calls| == (if a in plan0 && plan0[a].due == now then 1 else 0)
            && (calls != [] ==> calls[0].tick == now)
    ensures Undisturbed(r.events, a)
  {
    assert a !in Stops(r.events);
    WithoutElements(all, r.skipped);
    WithoutDistinct(all, r.skipped);
    CountCalls(r.events, now, quiet, a);
    DueOnce(r.visited, plan0, now, a);
  }

  /**
   The alarm was registered for `d0`, and has since been called as in `calls`, each time at its deadline, the last
   time no later than `now`; it is registered for what its last answer made of it.
   */
  ghost predicate Runs<A>(plan: map<A, Deadline>, a: A, d0: Deadline, now: nat, calls: seq<Call>) {
    && Regular(On(d0), calls) && SlotOf(plan, a) == Follow(On(d0), calls)
    && (calls != [] ==> calls[|calls| - 1].tick <= now)
    && (a in plan ==> plan[a].due > now)
  }

  /** What others do between ticks does not matter to it. */
  lemma RunsBetween<A>(plan: map<A, Deadline>, es: seq<Event<A>>, quiet: set<A>, a: A, d0: Deadline, now: nat,
                       calls: seq<Call>)
    requires Runs(plan, a, d0, now, calls) && Acts(es, now, quiet) && a in quiet
    ensures Runs(Replay(plan, es), a, d0, now, calls)
  {
    ActsLeaveAlone(es, now, quiet, a);
    SlotAfter(plan, es, a);
  }

  lemma AfterIsLater(d: Deadline, answer: nat)
    requires answer > 0
    ensures After(d, answer).due > d.due
  {
  }

  /** Nor what they do in a tick. */
  lemma RunsTick<A>(plan: map<A, Deadline>, es: seq<Event<A>>, a: A, d0: Deadline, now: nat, calls: seq<Call>)
    requires now > 0 && Runs(plan, a, d0, now - 1, calls) && Undisturbed(es, a)
    requires |CallsOf(es, a)| == if a in plan && plan[a].due == now then 1 else 0
    requires CallsOf(es, a) != [] ==> CallsOf(es, a)[0].tick == now
    ensures Runs(Replay(plan, es), a, d0, now, calls + CallsOf(es, a))
  {
    var more := CallsOf(es, a);
    if more == [] {
      assert calls + more == calls;
    } else {
      var c := more[0];
      assert more == [c] && more[..0] == [];
      assert (calls + more)[..|calls|] == calls;
      if c.answer > 0 { AfterIsLater(plan[a], c.answer); }
    }
    SlotAfter(plan, es, a);
  }

  /** The first call and the rest. */
  lemma {:induction false} RegularTail(d: Deadline, calls: seq<Call>)
    requires Regular(On(d), calls) && calls != []
    ensures calls[0].tick == d.due && (|calls| > 1 ==> calls[0].answer > 0)
    ensures calls[0].answer > 0 ==>
              var next := On(After(d, calls[0].answer));
              Regular(next, calls[1..]) && Follow(On(d), calls) == Follow(next, calls[1..])
    decreases |calls|
  {
    var init := calls[..|calls| - 1];
    if init == [] {
      assert calls[1..] == [];
    } else {
      RegularTail(d, init);
      assert init[0] == calls[0] && calls[1..][..|calls| - 2] == init[1..];
      if |init| == 1 { assert init[..0] == [] && Follow(On(d), []) == On(d); }
    }
  }

  lemma {:induction false} TicksGrow(d: Deadline, calls: seq<Call>)
    requires Regular(On(d), calls)
    ensures Follow(On(d), calls).On? ==> Follow(On(d), calls).d.due >= d.due
    ensures calls != [] ==> calls[|calls| - 1].tick >= d.due
    decreases |calls|
  {
    if calls != [] {
      var init := calls[..|calls| - 1];
      TicksGrow(d, init);
      if calls[|calls| - 1].answer > 0 { AfterIsLater(Follow(On(d), init).d, calls[|calls| - 1].answer); }
    }
  }

  /** So it has been called exactly on its schedule. */
  lemma {:induction false} RegularIsScheduled(d: Deadline, now: nat, calls: seq<Call>)
    requires Regular(On(d), calls) && (calls != [] ==> calls[|calls| - 1].tick <= now)
    requires Follow(On(d), calls).On? ==> Follow(On(d), calls).d.due > now
    ensures Ticks(calls) == Schedule(d, now, Answers(calls))
    decreases |calls|
  {
    if calls != [] {
      RegularTail(d, calls);
      TicksGrow(d, calls);
      var later := calls[1..];
      if calls[0].answer > 0 {
        RegularIsScheduled(After(d, calls[0].answer), now, later);
        assert Answers(calls)[1..] == Answers(later);
        assert Ticks(calls) == [d.due] + Ticks(later);
      } else {
        assert Ticks(calls) == [d.due];
      }
    }
  }
}
