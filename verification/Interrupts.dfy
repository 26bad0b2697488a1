/**
 The internal interrupt controller: masking, registration and dispatch.  A 32-bit word with one bit per line
 is the set of the lines whose bits are set.
 */
module Interrupts {
  import opened Platform

  const NIRQ: nat := 32

  /** A handler pointer, a slot of the handler table, and the processor's status word around its PIE bit. */
  datatype Handler = Null | Isr(id: nat)
  datatype Entry = Entry(handler: Handler, context: nat)
  datatype Status = Status(pie: bool, other: nat)

  /** What registration comes to; in the last case the code writes outside the table, which C leaves undefined. */
  datatype Result = Ok | InvalidArgument | OutsideTable

  /** A call made by the dispatcher: the pending word it read, the line it picked, the slot it called through. */
  datatype Call = Call(pending: set<nat>, line: nat, entry: Entry)

  /** A slot was filled, or a call made. */
  datatype Note = Registration(irq: nat, entry: Entry) | Dispatched(call: Call)

  /** `lines` are the lines devices assert; `calls` is the history of handler calls, `log` that of both. */
  datatype Cpu = Cpu(
    table: seq<Entry>, active: set<nat>, ienable: set<nat>, status: Status, lines: set<nat>, calls: seq<Call>,
    log: seq<Note>)

  /** What software and devices do, with critical sections and interrupts nested to any depth. */
  datatype Act =
    | Register(irq: nat, handler: Handler, context: nat)
    | Enable(irq: nat)
    | Disable(irq: nat)
    | Section(body: Code)
    | Devices(lines: set<nat>)
    | Interrupt(rounds: Rounds)
  datatype Code = Done | Then(first: Act, rest: Code)

  /** What the handlers called in one interrupt do, round by round. */
  datatype Rounds = NoMore | Round(body: Code, rest: Rounds)

  // ---- meaning ---------------------------------------------------------------------------------

  function Pending(c: Cpu): set<nat> {
    c.lines * c.ienable
  }

  predicate Lines(s: set<nat>) {
    forall i :: i in s ==> i < NIRQ
  }

  /** The first line of a word at or after bit i. */
  function Lowest(s: set<nat>, i: nat): (r: nat)
    requires Lines(s) && exists j :: j in s && i <= j
    ensures r in s && i <= r < NIRQ && forall j :: j in s && i <= j ==> r <= j
    decreases NIRQ - i
  {
    if i in s then i else
    assert exists j :: j in s && i + 1 <= j by {
      var j :| j in s && i <= j;
      assert i + 1 <= j;
    }
    Lowest(s, i + 1)
  }

  lemma HasLine(s: set<nat>)
    requires s != {}
    ensures exists j :: j in s && 0 <= j
  {
    var j :| j in s;
    assert j in s && 0 <= j;
  }

  /** The lowest-numbered line of a non-empty word. */
  function First(s: set<nat>): (r: nat)
    requires Lines(s) && s != {}
    ensures r in s && r < NIRQ && forall j :: j in s ==> r <= j
  {
    HasLine(s);
    Lowest(s, 0)
  }

  function SetMask(c: Cpu, active: set<nat>): Cpu {
    c.(active := active, ienable := active)
  }

  /** A 32-bit interrupt number, read as an `int`. */
  function AsInt(irq: nat): int
    requires irq < WRAP
  {
    if irq <= INT_MAX then irq else irq - WRAP
  }

  /** The table is respected: a number that passes the test is the index of a slot. */
  predicate Respected(irq: nat)
    requires irq < WRAP
  {
    AsInt(irq) < NIRQ ==> 0 <= AsInt(irq)
  }

  /** The test is signed, so it keeps to the table exactly for the lower half of the 32-bit numbers. */
  lemma RespectedExactly(irq: nat)
    requires irq < WRAP
    ensures Respected(irq) <==> irq < 0x8000_0000
    ensures Respected(irq) && AsInt(irq) < NIRQ <==> irq < NIRQ
  {
  }

  function AfterRegister(c: Cpu, irq: nat, entry: Entry): Cpu
    requires |c.table| == NIRQ
  {
    if irq >= NIRQ then c
    else SetMask(c.(table := c.table[irq := entry], log := c.log + [Registration(irq, entry)]),
                 if entry.handler != Null then c.active + {irq} else c.active - {irq})
  }

  function Masked(c: Cpu): Cpu {
    c.(status := c.status.(pie := false))
  }

  function Noted(c: Cpu): Cpu
    requires Shaped(c) && Pending(c) != {}
  {
    var line := First(Pending(c));
    var call := Call(Pending(c), line, c.table[line]);
    c.(calls := c.calls + [call], log := c.log + [Dispatched(call)])
  }

  /** The table has a slot for every line and no other bits are set. */
  predicate Shaped(c: Cpu) {
    |c.table| == NIRQ && Lines(c.active) && Lines(c.ienable)
  }

  predicate InRange(a: Act) {
    match a
    case Register(irq, _, _) => irq < WRAP && Respected(irq)
    case Enable(irq) => irq < NIRQ
    case Disable(irq) => irq < NIRQ
    case Section(body) => CodeInRange(body)
    case Devices(_) => true
    case Interrupt(rounds) => RoundsInRange(rounds)
  }

  predicate CodeInRange(code: Code) {
    code.Then? ==> InRange(code.first) && CodeInRange(code.rest)
  }

  predicate RoundsInRange(rounds: Rounds) {
    rounds.Round? ==> CodeInRange(rounds.body) && RoundsInRange(rounds.rest)
  }

  function Exec(c: Cpu, a: Act): (r: Cpu)
    requires Shaped(c) && InRange(a)
    ensures Shaped(r)
    decreases a
  {
    match a
    case Register(irq, handler, context) => AfterRegister(c, irq, Entry(handler, context))
    case Enable(irq) => SetMask(c, c.active + {irq})
    case Disable(irq) => SetMask(c, c.active - {irq})
    case Section(body) => ExecAll(Masked(c), body).(status := c.status)
    case Devices(lines) => c.(lines := lines)
    case Interrupt(rounds) =>
      if c.status.pie && Pending(c) != {} then Dispatch(Masked(c), rounds).(status := c.status) else c
  }

  function ExecAll(c: Cpu, code: Code): (r: Cpu)
    requires Shaped(c) && CodeInRange(code)
    ensures Shaped(r)
    decreases code
  {
    if code.Done? then c else ExecAll(Exec(c, code.first), code.rest)
  }

  /** Rounds of the dispatcher, until nothing is pending: each calls the lowest-numbered pending line. */
  function Dispatch(c: Cpu, rounds: Rounds): (r: Cpu)
    requires Shaped(c) && RoundsInRange(rounds)
    ensures Shaped(r)
    decreases rounds
  {
    if rounds.NoMore? || Pending(c) == {} then c
    else Dispatch(ExecAll(Noted(c), rounds.body), rounds.rest)
  }

  /** The handlers are followed to the end: until the dispatcher reads an empty word. */
  predicate Completes(c: Cpu, rounds: Rounds)
    requires Shaped(c) && RoundsInRange(rounds)
    decreases rounds
  {
    Pending(c) != {} ==> rounds.Round? && Completes(ExecAll(Noted(c), rounds.body), rounds.rest)
  }

  /** The dispatcher returns only with nothing pending. */
  lemma {:induction false} CompleteIsEmpty(c: Cpu, rounds: Rounds)
    requires Shaped(c) && RoundsInRange(rounds)
    ensures Completes(c, rounds) <==> Pending(Dispatch(c, rounds)) == {}
    decreases rounds
  {
    if rounds.Round? && Pending(c) != {} {
      CompleteIsEmpty(ExecAll(Noted(c), rounds.body), rounds.rest);
    }
  }

  /** After start-up: an empty table, every line masked, interrupts on. */
  function Boot(): Cpu {
    Cpu(seq(NIRQ, _ => Entry(Null, 0)), {}, {}, Status(true, 0), {}, [], [])
  }

  // ---- invariants over all runs ----------------------------------------------------------------

  /** IENABLE mirrors the software mask, and a line can only be enabled if it has a handler. */
  predicate Inv(c: Cpu) {
    && Shaped(c) && c.ienable == c.active
    && forall i :: i in c.active ==> c.table[i].handler != Null
  }

  /** Exactly the lines with a handler are enabled. */
  predicate Exact(c: Cpu) {
    && Shaped(c)
    && forall i :: 0 <= i < NIRQ ==> (i in c.active <==> c.table[i].handler != Null)
  }

  /** Each line that is enabled directly has a handler then; none is disabled directly unless `disable`. */
  predicate Careful(c: Cpu, a: Act, disable: bool)
    requires Shaped(c) && InRange(a)
    decreases a
  {
    match a
    case Enable(irq) => c.table[irq].handler != Null
    case Disable(_) => disable
    case Section(body) => AllCareful(Masked(c), body, disable)
    case Interrupt(rounds) => c.status.pie && Pending(c) != {} ==> RoundsCareful(Masked(c), rounds, disable)
    case _ => true
  }

  predicate AllCareful(c: Cpu, code: Code, disable: bool)
    requires Shaped(c) && CodeInRange(code)
    decreases code
  {
    code.Then? ==> Careful(c, code.first, disable) && AllCareful(Exec(c, code.first), code.rest, disable)
  }

  predicate RoundsCareful(c: Cpu, rounds: Rounds, disable: bool)
    requires Shaped(c) && RoundsInRange(rounds)
    decreases rounds
  {
    rounds.Round? && Pending(c) != {} ==>
      && AllCareful(Noted(c), rounds.body, disable)
      && RoundsCareful(ExecAll(Noted(c), rounds.body), rounds.rest, disable)
  }

  /** The call goes to the lowest-numbered pending line, through a slot that holds a handler. */
  predicate GoodCall(call: Call) {
    && call.line in call.pending
    && (forall j :: j in call.pending ==> call.line <= j)
    && call.entry.handler != Null
  }

  predicate GoodCalls(c: Cpu) {
    forall k :: 0 <= k < |c.calls| ==> GoodCall(c.calls[k])
  }

  predicate Kept(c: Cpu, disable: bool) {
    Inv(c) && GoodCalls(c) && (!disable ==> Exact(c))
  }

  lemma RegisterKeeps(c: Cpu, irq: nat, entry: Entry, disable: bool)
    requires Kept(c, disable)
    ensures Kept(AfterRegister(c, irq, entry), disable)
  {
    if irq < NIRQ {
      var c' := AfterRegister(c, irq, entry);
      forall i | 0 <= i < NIRQ
        ensures c'.table[i] == (if i == irq then entry else c.table[i])
        ensures i in c'.active <==> if i == irq then entry.handler != Null else i in c.active
      {
      }
      forall i | i in c'.active ensures c'.table[i].handler != Null {
      }
    }
  }

  lemma NotedKeeps(c: Cpu, disable: bool)
    requires Kept(c, disable) && Pending(c) != {}
    ensures Kept(Noted(c), disable) && Noted(c).status == c.status
  {
    var line := First(Pending(c));
    assert GoodCall(Call(Pending(c), line, c.table[line]));
  }

  lemma {:induction false} ExecKeeps(c: Cpu, a: Act, disable: bool)
    requires Kept(c, disable) && InRange(a) && Careful(c, a, disable)
    ensures Kept(Exec(c, a), disable) && Exec(c, a).status == c.status
    decreases a
  {
    match a
    case Register(irq, handler, context) => RegisterKeeps(c, irq, Entry(handler, context), disable);
    case Section(body) => ExecAllKeeps(Masked(c), body, disable);
    case Interrupt(rounds) =>
      if c.status.pie && Pending(c) != {} {
        DispatchKeeps(Masked(c), rounds, disable);
      }
    case _ =>
  }

  lemma {:induction false} ExecAllKeeps(c: Cpu, code: Code, disable: bool)
    requires Kept(c, disable) && CodeInRange(code) && AllCareful(c, code, disable)
    ensures Kept(ExecAll(c, code), disable) && ExecAll(c, code).status == c.status
    decreases code
  {
    if code.Then? {
      ExecKeeps(c, code.first, disable);
      ExecAllKeeps(Exec(c, code.first), code.rest, disable);
    }
  }

  lemma {:induction false} DispatchKeeps(c: Cpu, rounds: Rounds, disable: bool)
    requires Kept(c, disable) && RoundsInRange(rounds) && RoundsCareful(c, rounds, disable)
    ensures Kept(Dispatch(c, rounds), disable) && Dispatch(c, rounds).status == c.status
    decreases rounds
  {
    if rounds.Round? && Pending(c) != {} {
      NotedKeeps(c, disable);
      ExecAllKeeps(Noted(c), rounds.body, disable);
      DispatchKeeps(ExecAll(Noted(c), rounds.body), rounds.rest, disable);
    }
  }

  /**
   For every program that enables lines by registering handlers, or directly once they have one, whatever
   devices and handlers do: an enabled line has a handler, IENABLE is the software mask, every call made went to
   the lowest-numbered pending line and through a handler, and the status word is what it was at the start.
   */
  lemma EveryRun(code: Code)
    requires CodeInRange(code) && AllCareful(Boot(), code, true)
    ensures var c := ExecAll(Boot(), code);
            && c.ienable == c.active && c.status == Boot().status
            && (forall i :: i in c.active ==> i < NIRQ && c.table[i].handler != Null)
            && (forall k :: 0 <= k < |c.calls| ==> GoodCall(c.calls[k]))
  {
    ExecAllKeeps(Boot(), code, true);
  }

  /** If lines are not disabled directly either, exactly the lines with a handler are enabled. */
  lemma EnabledIsRegistered(code: Code)
    requires CodeInRange(code) && AllCareful(Boot(), code, false)
    ensures var c := ExecAll(Boot(), code);
            && |c.table| == NIRQ
            && forall i :: 0 <= i < NIRQ ==> (i in c.ienable <==> c.table[i].handler != Null)
  {
    ExecAllKeeps(Boot(), code, false);
  }

  /** Enabling a line directly keeps this up exactly when the line already has a handler. */
  lemma DirectEnable(c: Cpu, irq: nat)
    requires Inv(c) && irq < NIRQ
    ensures Inv(Exec(c, Enable(irq))) <==> c.table[irq].handler != Null
  {
    assert irq in Exec(c, Enable(irq)).active;
  }

  /** Otherwise the dispatcher can be led to call a null pointer. */
  lemma NullCall()
    ensures var code := Then(Enable(5), Then(Devices({5}), Then(Interrupt(Round(Done, NoMore)), Done)));
            && CodeInRange(code)
            && ExecAll(Boot(), code).calls == [Call({5}, 5, Entry(Null, 0))]
  {
    var c1 := Exec(Boot(), Enable(5));
    var c2 := Exec(c1, Devices({5}));
    assert Pending(c2) == {5};
    var rounds := Round(Done, NoMore);
    assert InRange(Interrupt(rounds)) && RoundsInRange(rounds) && CodeInRange(Done) && RoundsInRange(NoMore);
    var noted := Noted(Masked(c2));
    assert Pending(Masked(c2)) == {5};
    assert Dispatch(Masked(c2), rounds) == Dispatch(ExecAll(noted, Done), NoMore) == noted;
    var c3 := Exec(c2, Interrupt(rounds));
    assert ExecAll(c3, Done) == c3;
    assert ExecAll(c2, Then(Interrupt(rounds), Done)) == c3;
    assert ExecAll(c1, Then(Devices({5}), Then(Interrupt(rounds), Done))) == c3;
  }

  // ---- what each action does -------------------------------------------------------------------

  /** Registering fills the line's slot with the handler and its context, and enables or disables the line. */
  lemma RegisterOutcome(c: Cpu, irq: nat, handler: Handler, context: nat)
    requires Shaped(c) && c.ienable == c.active && irq < 0x8000_0000
    ensures InRange(Register(irq, handler, context))
    ensures var c' := Exec(c, Register(irq, handler, context));
            if irq < 32 then
              && |c'.table| == 32 && c'.table[irq] == Entry(handler, context)
              && (forall j :: 0 <= j < 32 && j != irq ==> c'.table[j] == c.table[j])
              && (forall j :: j in c'.active <==> if j == irq then handler != Null else j in c.active)
              && c'.ienable == c'.active && c'.status == c.status && c'.lines == c.lines && c'.calls == c.calls
              && c'.log == c.log + [Registration(irq, Entry(handler, context))]
            else c' == c
  {
    RespectedExactly(irq);
  }

  /** Enabling and disabling change the one line in mask and IENABLE, and nothing else. */
  lemma MaskOutcome(c: Cpu, irq: nat)
    requires Shaped(c) && irq < NIRQ
    ensures var c' := Exec(c, Enable(irq));
            && (forall j :: j in c'.active <==> j == irq || j in c.active)
            && c'.ienable == c'.active && c' == c.(active := c'.active, ienable := c'.ienable)
    ensures var c' := Exec(c, Disable(irq));
            && (forall j :: j in c'.active <==> j != irq && j in c.active)
            && c'.ienable == c'.active && c' == c.(active := c'.active, ienable := c'.ienable)
  {
  }

  /** A call is made exactly if PIE is set and an enabled line is asserted: to the lowest such line. */
  lemma InterruptOutcome(c: Cpu, body: Code)
    requires Shaped(c) && CodeInRange(body)
    ensures InRange(Interrupt(Round(body, NoMore)))
    ensures var c' := Exec(c, Interrupt(Round(body, NoMore)));
            if c.status.pie && exists j :: j in c.lines && j in c.ienable then
              && |c'.calls| == |c.calls| + 1 && c'.calls[..|c.calls|] == c.calls && c'.status == c.status
              && var call := c'.calls[|c.calls|];
                 && call.line in c.lines && call.line in c.ienable && call.line < 32
                 && (forall j :: j in c.lines && j in c.ienable ==> call.line <= j)
                 && call.entry == c.table[call.line]
            else c' == c
  {
    var rounds := Round(body, NoMore);
    assert RoundsInRange(NoMore) && RoundsInRange(rounds);
    PendingIs(c);
    if Pending(c) != {} {
      var noted := Noted(Masked(c));
      assert Pending(Masked(c)) == Pending(c);
      MaskedIsQuiet(noted, body);
      assert Dispatch(Masked(c), rounds) == Dispatch(ExecAll(noted, body), NoMore) == ExecAll(noted, body);
    }
  }

  lemma PendingIs(c: Cpu)
    requires Shaped(c)
    ensures Pending(c) != {} <==> exists j :: j in c.lines && j in c.ienable
    ensures Pending(c) != {} ==>
              var line := First(Pending(c));
              && line in c.lines && line in c.ienable && line < NIRQ
              && forall j :: j in c.lines && j in c.ienable ==> line <= j
  {
    forall j | j in c.lines && j in c.ienable ensures j in Pending(c) { }
  }

  /** What a line was last registered with. */
  function LastEntry(log: seq<Note>, line: nat): Entry {
    if log == [] then Entry(Null, 0) else
    var last := log[|log| - 1];
    if last.Registration? && last.irq == line then last.entry else LastEntry(log[..|log| - 1], line)
  }

  function CallsIn(log: seq<Note>): seq<Call> {
    if log == [] then [] else
    var last := log[|log| - 1];
    CallsIn(log[..|log| - 1]) + if last.Dispatched? then [last.call] else []
  }

  /** Slots and calls are as the log says: each call went through the entry its line was last registered with. */
  predicate Remembers(c: Cpu) {
    && Shaped(c) && c.calls == CallsIn(c.log)
    && (forall i :: 0 <= i < NIRQ ==> c.table[i] == LastEntry(c.log, i))
    && (forall k :: 0 <= k < |c.log| && c.log[k].Dispatched? ==>
          c.log[k].call.entry == LastEntry(c.log[..k], c.log[k].call.line))
  }

  lemma OneNote(c: Cpu, c': Cpu, note: Note)
    requires Remembers(c) && Shaped(c') && c'.log == c.log + [note]
    requires c'.calls == c.calls + if note.Dispatched? then [note.call] else []
    requires note.Registration? ==> note.irq < NIRQ && c'.table == c.table[note.irq := note.entry]
    requires note.Dispatched? ==>
               c'.table == c.table && note.call.line < NIRQ && note.call.entry == c.table[note.call.line]
    ensures Remembers(c')
  {
    assert c'.log[..|c.log|] == c.log;
    forall k | 0 <= k < |c'.log| && c'.log[k].Dispatched?
      ensures c'.log[k].call.entry == LastEntry(c'.log[..k], c'.log[k].call.line)
    {
      assert c'.log[..k] == c.log[..k];
    }
  }

  lemma {:induction false} ExecRemembers(c: Cpu, a: Act)
    requires Remembers(c) && InRange(a)
    ensures Remembers(Exec(c, a))
    decreases a
  {
    match a
    case Register(irq, handler, context) =>
      if irq < NIRQ { OneNote(c, Exec(c, a), Registration(irq, Entry(handler, context))); }
    case Section(body) => AllRemember(Masked(c), body);
    case Interrupt(rounds) =>
      if c.status.pie && Pending(c) != {} { DispatchRemembers(Masked(c), rounds); }
    case _ =>
  }

  lemma {:induction false} AllRemember(c: Cpu, code: Code)
    requires Remembers(c) && CodeInRange(code)
    ensures Remembers(ExecAll(c, code))
    decreases code
  {
    if code.Then? {
      ExecRemembers(c, code.first);
      AllRemember(Exec(c, code.first), code.rest);
    }
  }

  lemma {:induction false} DispatchRemembers(c: Cpu, rounds: Rounds)
    requires Remembers(c) && RoundsInRange(rounds)
    ensures Remembers(Dispatch(c, rounds))
    decreases rounds
  {
    if rounds.Round? && Pending(c) != {} {
      var line := First(Pending(c));
      OneNote(c, Noted(c), Dispatched(Call(Pending(c), line, c.table[line])));
      AllRemember(Noted(c), rounds.body);
      DispatchRemembers(ExecAll(Noted(c), rounds.body), rounds.rest);
    }
  }

  /** In every program each call goes through the handler and the context its line was last registered with. */
  lemma CallsGoThrough(code: Code)
    requires CodeInRange(code)
    ensures var c := ExecAll(Boot(), code);
            && c.calls == CallsIn(c.log)
            && forall k :: 0 <= k < |c.log| && c.log[k].Dispatched? ==>
                 c.log[k].call.entry == LastEntry(c.log[..k], c.log[k].call.line)
  {
    AllRemember(Boot(), code);
  }

  // ---- masking ---------------------------------------------------------------------------------

  /** PIE and the rest of the status word are restored at any nesting depth. */
  lemma {:induction false} StatusRestored(c: Cpu, code: Code)
    requires Shaped(c) && CodeInRange(code)
    ensures ExecAll(c, code).status == c.status
    decreases code
  {
    if code.Then? {
      StatusRestored(Exec(c, code.first), code.rest);
    }
  }

  /** While PIE is clear no handler is called, however the code nests sections. */
  lemma {:induction false} MaskedIsQuiet(c: Cpu, code: Code)
    requires Shaped(c) && CodeInRange(code) && !c.status.pie
    ensures ExecAll(c, code).calls == c.calls
    decreases code
  {
    if code.Then? {
      var a := code.first;
      if a.Section? {
        MaskedIsQuiet(Masked(c), a.body);
      }
      MaskedIsQuiet(Exec(c, a), code.rest);
    }
  }

  /** So a critical section runs undisturbed, and a handler is never entered again before it returns. */
  lemma SectionIsAtomic(c: Cpu, body: Code)
    requires Shaped(c) && CodeInRange(body)
    ensures Exec(c, Section(body)).calls == c.calls && Exec(c, Section(body)).status == c.status
    ensures Pending(c) != {} ==> ExecAll(Noted(Masked(c)), body).calls == Noted(c).calls
  {
    MaskedIsQuiet(Masked(c), body);
    if Pending(c) != {} {
      MaskedIsQuiet(Noted(Masked(c)), body);
    }
  }

  // ---- priority --------------------------------------------------------------------------------

  /** Handlers that each silence their own line and change nothing else that is pending. */
  predicate Quieting(c: Cpu, rounds: Rounds)
    requires Shaped(c) && RoundsInRange(rounds)
    decreases rounds
  {
    rounds.Round? && Pending(c) != {} ==>
      var c' := ExecAll(Noted(c), rounds.body);
      Pending(c') == Pending(c) - {First(Pending(c))} && Quieting(c', rounds.rest)
  }

  function Length(rounds: Rounds): nat {
    if rounds.NoMore? then 0 else 1 + Length(rounds.rest)
  }

  /** The lines a run of calls served. */
  function Served(calls: seq<Call>): seq<nat> {
    seq(|calls|, k requires 0 <= k < |calls| => calls[k].line)
  }

  predicate Lists(r: seq<nat>, s: set<nat>) {
    && |r| == |s|
    && (forall j :: j in s ==> j in r)
    && (forall k :: 0 <= k < |r| ==> r[k] in s)
    && (forall k, l :: 0 <= k < l < |r| ==> r[k] < r[l])
  }

  lemma ListsFirst(first: nat, rest: seq<nat>, s: set<nat>)
    requires first in s && Lists(rest, s - {first}) && forall j :: j in s ==> first <= j
    ensures Lists([first] + rest, s)
  {
    var r := [first] + rest;
    assert |s - {first}| == |s| - 1;
    forall j | j in s ensures j in r {
      assert j == first || j in rest;
    }
    forall k, l | 0 <= k < l < |r| ensures r[k] < r[l] {
      assert r[l] == rest[l - 1] && rest[l - 1] in s - {first};
      assert k > 0 ==> r[k] == rest[k - 1];
    }
  }

  /** A word's lines in ascending order. */
  function Ascending(s: set<nat>): (r: seq<nat>)
    requires Lines(s)
    ensures Lists(r, s)
  {
    if s == {} then [] else
    var (line, rest) := (First(s), Ascending(s - {First(s)}));
    ListsFirst(line, rest, s);
    [line] + rest
  }

  lemma ServedNext(before: seq<Call>, call: Call, after: seq<Call>)
    requires before + [call] <= after
    ensures before <= after
    ensures Served(after[|before|..]) == [call.line] + Served(after[|before| + 1..])
  {
    assert after[|before|] == (before + [call])[|before|] == call;
    assert after[|before|..] == [call] + after[|before| + 1..];
  }

  /** One round with a quieting handler: one line fewer is pending, and one call has been made. */
  lemma QuietRound(c: Cpu, rounds: Rounds)
    requires Shaped(c) && RoundsInRange(rounds) && !c.status.pie && Quieting(c, rounds)
    requires rounds.Round? && Pending(c) != {}
    ensures var c' := ExecAll(Noted(c), rounds.body);
            && !c'.status.pie && c'.calls == Noted(c).calls
            && Pending(c') == Pending(c) - {First(Pending(c))}
            && |Pending(c')| == |Pending(c)| - 1
            && Ascending(Pending(c)) == [First(Pending(c))] + Ascending(Pending(c'))
  {
    MaskedIsQuiet(Noted(c), rounds.body);
    StatusRestored(Noted(c), rounds.body);
  }

  /** Such handlers are called once for each pending line, in order of priority, and leave nothing pending. */
  lemma {:induction false} ServedInOrder(c: Cpu, rounds: Rounds)
    requires Shaped(c) && RoundsInRange(rounds) && !c.status.pie && Quieting(c, rounds)
    requires Length(rounds) >= |Pending(c)|
    ensures Pending(Dispatch(c, rounds)) == {}
    ensures c.calls <= Dispatch(c, rounds).calls
    ensures Served(Dispatch(c, rounds).calls[|c.calls|..]) == Ascending(Pending(c))
    decreases rounds
  {
    if Pending(c) != {} {
      var noted := Noted(c);
      var c' := ExecAll(noted, rounds.body);
      QuietRound(c, rounds);
      ServedInOrder(c', rounds.rest);
      ServedNext(c.calls, noted.calls[|c.calls|], Dispatch(c', rounds.rest).calls);
    }
  }

  // ---- the controller --------------------------------------------------------------------------

  class Controller {
    const table: array<Entry>
    var active: set<nat>
    var ienable: set<nat>
    var status: Status
    var lines: set<nat>
    ghost var calls: seq<Call>
    ghost var log: seq<Note>

    ghost function State(): Cpu
      reads this, table
    {
      Cpu(table[..], active, ienable, status, lines, calls, log)
    }

    ghost predicate Valid()
      reads this, table
    {
      Shaped(State())
    }

    /** Start-up: IENABLE cleared, then PIE set. */
    constructor ()
      ensures State() == Boot() && fresh(table)
    {
      table := new Entry[NIRQ](_ => Entry(Null, 0));
      active, lines, calls, log := {}, {}, [], [];
      ienable := {};
      status := Status(true, 0);
      new;
      assert table[..] == Boot().table;
    }

    method DisableAll() returns (context: Status)
      modifies this`status
      ensures context == old(status) && State() == Masked(old(State()))
    {
      context := status;
      status := context.(pie := false);
    }

    method EnableAll(context: Status)
      modifies this`status
      ensures State() == old(State()).(status := context)
    {
      status := context;
    }

    method EnableLine(id: nat)
      requires id < NIRQ
      modifies this`status, this`active, this`ienable
      ensures State() == SetMask(old(State()), old(active) + {id})
    {
      var context := DisableAll();
      active := active + {id};
      ienable := active;
      EnableAll(context);
    }

    method DisableLine(id: nat)
      requires id < NIRQ
      modifies this`status, this`active, this`ienable
      ensures State() == SetMask(old(State()), old(active) - {id})
    {
      var context := DisableAll();
      active := active - {id};
      ienable := active;
      EnableAll(context);
    }

    /** Registering a handler enables its line; registering a null pointer disables it. */
    method RegisterIsr(irq: nat, isr: Handler, context: nat) returns (rc: Result)
      requires Valid() && irq < WRAP
      modifies this`status, this`active, this`ienable, this`log, table
      ensures Respected(irq) ==> State() == AfterRegister(old(State()), irq, Entry(isr, context))
      ensures status == old(status)
      ensures irq < NIRQ ==>
                && table[irq] == Entry(isr, context)
                && (forall j :: 0 <= j < NIRQ && j != irq ==> table[j] == old(table[j]))
                && active == (if isr != Null then old(active) + {irq} else old(active) - {irq}) && ienable == active
                && log == old(log) + [Registration(irq, Entry(isr, context))]
      ensures rc == if irq < NIRQ then Ok else if Respected(irq) then InvalidArgument else OutsideTable
    {
      rc := InvalidArgument;
      var id: int := AsInt(irq);
      if id < NIRQ {
        if id < 0 {
          return OutsideTable;
        }
        var status' := DisableAll();
        table[id] := Entry(isr, context);
        log := log + [Registration(id, Entry(isr, context))];
        if isr != Null {
          EnableLine(id);
        } else {
          DisableLine(id);
        }
        rc := Ok;
        EnableAll(status');
      }
    }

    /** Tests each bit in turn until one is set. */
    method FindPending(pending: set<nat>) returns (i: nat)
      requires Lines(pending) && pending != {}
      ensures i in pending && i < NIRQ && forall j :: j in pending ==> i <= j
    {
      i := 0;
      HasLine(pending);
      while i !in pending
        invariant exists j :: j in pending && i <= j
        invariant forall j :: j in pending ==> i <= j
        decreases NIRQ - i
      {
        ghost var j :| j in pending && i <= j;
        assert j != i;
        i := i + 1;
      }
    }

    /** The dispatcher, given that something is pending when it first looks. */
    method HandleIrq(rounds: Rounds)
      requires Valid() && RoundsInRange(rounds) && Pending(State()) != {}
      modifies this, table
      ensures Valid() && State() == Dispatch(old(State()), rounds)
      ensures Completes(old(State()), rounds) <==> Pending(State()) == {}
      decreases rounds, 1
    {
      var active' := lines * ienable;
      ghost var start := State();
      CompleteIsEmpty(start, rounds);
      var left := rounds;
      while left.Round? && active' != {}
        invariant Valid() && RoundsInRange(left) && active' == Pending(State())
        invariant Dispatch(State(), left) == Dispatch(start, rounds)
        invariant left == rounds || left < rounds
        decreases left
      {
        var i := FindPending(active');
        assert i == First(Pending(State()));
        calls, log := calls + [Call(active', i, table[i])], log + [Dispatched(Call(active', i, table[i]))];
        PerformAll(left.body);
        left := left.rest;
        active' := lines * ienable;
      }
    }

    /** The exception entry around it: status is saved, PIE cleared, and status restored on return. */
    method TakeInterrupt(rounds: Rounds)
      requires Valid() && RoundsInRange(rounds)
      modifies this, table
      ensures Valid() && State() == Exec(old(State()), Interrupt(rounds)) && status == old(status)
      decreases rounds, 2
    {
      if status.pie && lines * ienable != {} {
        var saved := status;
        status := status.(pie := false);
        assert Pending(State()) == Pending(old(State()));
        HandleIrq(rounds);
        status := saved;
      }
    }

    method PerformAll(code: Code)
      requires Valid() && CodeInRange(code)
      modifies this, table
      ensures Valid() && State() == ExecAll(old(State()), code) && status == old(status)
      decreases code, 0
    {
      ghost var start := State();
      StatusRestored(start, code);
      var left := code;
      while left.Then?
        invariant Valid() && CodeInRange(left) && (left == code || left < code)
        invariant ExecAll(State(), left) == ExecAll(start, code)
        decreases left
      {
        Perform(left.first);
        left := left.rest;
      }
    }

    method Perform(a: Act)
      requires Valid() && InRange(a)
      modifies this, table
      ensures Valid() && State() == Exec(old(State()), a) && status == old(status)
      decreases a, 0
    {
      StatusRestored(State(), Then(a, Done));
      match a
      case Register(irq, handler, context) =>
        var rc := RegisterIsr(irq, handler, context);
      case Enable(irq) => EnableLine(irq);
      case Disable(irq) => DisableLine(irq);
      case Section(body) =>
        var context := DisableAll();
        PerformAll(body);
        EnableAll(context);
      case Devices(lines') => lines := lines';
      case Interrupt(rounds) => TakeInterrupt(rounds);
    }
  }
}
