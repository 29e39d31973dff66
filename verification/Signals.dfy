/**
 Signal delivery to one process (kernel/exec/signals.c).  Signal sets are sets of signal
 numbers; the outcome of each user-space access and allocation is an input.

 `Step` is the effect of one kernel entry (or of the handler's own execution) on the process;
 the class `Process` makes the same changes field by field.
 */
module Signals {
  import opened Options

  const MAX_SIGNALS := 32
  const SIGKILL := 9
  const SIGUSR1 := 10
  const SIGCHLD := 17
  const SIGCONT := 18
  const SIGSTOP := 19
  const SIGURG := 23
  const WRAP := 0x1_0000_0000_0000_0000

  type Word = w: int | 0 <= w < WRAP

  /** The registers that delivery touches, and all the others. */
  datatype Cpu = Cpu(rip: Word, rdi: Word, rsp: Word, trapFlag: bool, others: seq<Word>)

  datatype Action = Action(handler: Word, flags: Word, mask: Word)

  datatype Proc = Proc(
    pending: set<nat>, blocked: set<nat>, actions: seq<Action>,
    saved: Cpu, pre: Option<Cpu>, inHandler: bool,
    exited: Option<nat>,        // status passed to proc_exit
    delivered: seq<nat>)        // history: the signals whose handler was entered

  // ----- Invariant ----------------------------------------------------------------------

  ghost predicate Valid(p: Proc) {
    && |p.actions| == MAX_SIGNALS
    && SignalSet(p.pending)
    && SIGKILL !in p.blocked && SIGSTOP !in p.blocked
    && p.actions[SIGKILL].handler == 0 && p.actions[SIGSTOP].handler == 0
    && (p.inHandler <==> p.pre.Some?)
  }

  // ----- Delivery -----------------------------------------------------------------------

  function Deliverable(p: Proc): set<nat> { p.pending - p.blocked }

  /** The scan for the lowest set bit, from bit i on; 1 if it finds none. */
  function LowestFrom(s: set<nat>, i: nat): (r: nat)
    ensures r == 1 || i <= r < MAX_SIGNALS
    decreases MAX_SIGNALS - i
  {
    if i >= MAX_SIGNALS then 1 else if i in s then i else LowestFrom(s, i + 1)
  }

  function Lowest(s: set<nat>): nat { LowestFrom(s, 1) }

  lemma {:induction false} LowestFromIsLeast(s: set<nat>, i: nat, k: nat)
    requires k in s && i <= k < MAX_SIGNALS
    ensures LowestFrom(s, i) in s && i <= LowestFrom(s, i) <= k
    decreases MAX_SIGNALS - i
  {
    if i !in s { LowestFromIsLeast(s, i + 1, k); }
  }

  predicate SignalSet(s: set<nat>) { forall k | k in s :: 1 <= k < MAX_SIGNALS }

  lemma LowestIsLeast(s: set<nat>)
    requires SignalSet(s) && s != {}
    ensures Lowest(s) in s && forall k | k in s :: Lowest(s) <= k
  {
    forall k | k in s ensures Lowest(s) in s && Lowest(s) <= k { LowestFromIsLeast(s, 1, k); }
    var k :| k in s;
  }

  /** `(rsp - 128 - 16) & ~0xF` on 64-bit words. */
  function Trampoline(rsp: Word): Word { var t := (rsp - 144) % WRAP; t - t % 16 }

  function HandlerRsp(rsp: Word): Word { (Trampoline(rsp) - 8) % WRAP }

  /** What can go wrong between choosing a signal and entering its handler. */
  datatype Faults = Faults(alloc: bool, code: bool, ret: bool)

  const NO_FAULTS := Faults(false, false, false)

  predicate Faulty(f: Faults) { f.alloc || f.code || f.ret }

  function EnterHandler(c: Cpu, handler: Word, signum: nat): Cpu
    requires signum < MAX_SIGNALS
  {
    c.(rip := handler, rdi := signum, rsp := HandlerRsp(c.rsp), trapFlag := false)
  }

  predicate IgnoredByDefault(signum: nat) { signum == SIGCHLD || signum == SIGCONT || signum == SIGURG }

  /** signal_check_and_deliver. */
  function Deliver(p: Proc, faults: Faults): Proc
    requires Valid(p)
  {
    if p.inHandler || Deliverable(p) == {} then p else
    var signum := Lowest(Deliverable(p));
    var q := p.(pending := p.pending - {signum});
    var handler := p.actions[signum].handler;
    if handler == 0 then
      if IgnoredByDefault(signum) then q else q.(exited := Some(128 + signum))
    else if handler == 1 || Faulty(faults) then q
    else q.(pre := Some(p.saved), saved := EnterHandler(p.saved, handler, signum), inHandler := true,
            delivered := p.delivered + [signum])
  }

  // ----- Kernel entries -----------------------------------------------------------------

  datatype Event =
    | Sigaction(signum: int, oldFault: bool, act: Option<Action>, actFault: bool)
    | Sigprocmask(how: int, oldFault: bool, mask: Option<set<nat>>, maskFault: bool)
    | Kill(sig: int)
    | Check(faults: Faults)
    | Sigreturn(faults: Faults)
    | HandlerRuns(state: Cpu)   // user code of the handler, ending in any register state

  function SetAction(p: Proc, signum: int, act: Action): Proc
    requires |p.actions| == MAX_SIGNALS
  {
    if signum < 1 || signum >= MAX_SIGNALS || signum == SIGKILL || signum == SIGSTOP then p
    else p.(actions := p.actions[signum := act])
  }

  function SetMask(p: Proc, how: int, mask: set<nat>): Proc {
    if how < 0 || how > 2 then p else
    var m := if how == 0 then p.blocked + mask else if how == 1 then p.blocked - mask else mask;
    p.(blocked := m - {SIGKILL, SIGSTOP})
  }

  function Return(p: Proc, faults: Faults): Proc
    requires Valid(p)
  {
    if !p.inHandler then p else Deliver(p.(saved := p.pre.value, inHandler := false, pre := None), faults)
  }

  /** A process that has exited takes no further step. */
  function Step(p: Proc, e: Event): Proc
    requires Valid(p)
  {
    if p.exited.Some? then p else
    match e
    case Sigaction(signum, oldFault, act, actFault) =>
      if oldFault || act.None? || actFault then p else SetAction(p, signum, act.value)
    case Sigprocmask(how, oldFault, mask, maskFault) =>
      if oldFault || mask.None? || maskFault then p else SetMask(p, how, mask.value)
    case Kill(sig) => if sig < 1 || sig >= MAX_SIGNALS then p else p.(pending := p.pending + {sig})
    case Check(faults) => Deliver(p, faults)
    case Sigreturn(faults) => Return(p, faults)
    case HandlerRuns(state) => if p.inHandler then p.(saved := state) else p
  }

  lemma StepValid(p: Proc, e: Event)
    requires Valid(p)
    ensures Valid(Step(p, e))
  {
  }

  function Run(p: Proc, events: seq<Event>): Proc
    requires Valid(p)
    decreases |events|
  {
    if events == [] then p else
    StepValid(p, events[0]);
    Run(Step(p, events[0]), events[1..])
  }

  /** Over every run: SIGKILL and SIGSTOP are neither blocked nor rebound, and a saved state is
      held exactly while a handler runs. */
  lemma {:induction false} RunValid(p: Proc, events: seq<Event>)
    requires Valid(p)
    ensures Valid(Run(p, events))
    ensures Run(p, events).actions[SIGKILL].handler == 0 && Run(p, events).actions[SIGSTOP].handler == 0
    decreases |events|
  {
    if events != [] {
      StepValid(p, events[0]);
      RunValid(Step(p, events[0]), events[1..]);
    }
  }

  /** The registers of the program under any handler. */
  function Interrupted(p: Proc): Cpu
    requires Valid(p)
  {
    if p.inHandler then p.pre.value else p.saved
  }

  /** Whatever signals arrive and whatever the handlers do to the registers, the interrupted
      program's state is kept; once no handler runs it is back in place. */
  lemma {:induction false} RunRestores(p: Proc, events: seq<Event>)
    requires Valid(p)
    ensures Valid(Run(p, events)) && Interrupted(Run(p, events)) == Interrupted(p)
    ensures !Run(p, events).inHandler ==> Run(p, events).saved == Interrupted(p)
    decreases |events|
  {
    if events != [] {
      StepValid(p, events[0]);
      RunRestores(Step(p, events[0]), events[1..]);
    }
  }

  // ----- The handler's frame ------------------------------------------------------------

  /** RSP is 8 modulo 16 at handler entry, and the frame (return slot and trampoline) lies
      wholly below the 128-byte red zone exactly when the stack pointer is at least 160. */
  lemma FrameLayout(rsp: Word)
    ensures HandlerRsp(rsp) % 16 == 8
    ensures HandlerRsp(rsp) + 8 + 16 + 128 <= rsp <==> rsp >= 160
    ensures rsp >= 160 ==> Trampoline(rsp) == HandlerRsp(rsp) + 8 && rsp - HandlerRsp(rsp) < 128 + 16 + 8 + 16
  {
  }

  // ----- What one entry does ------------------------------------------------------------

  /** The lowest signal that is pending and not blocked. */
  ghost predicate IsNext(p: Proc, low: nat) {
    low in p.pending && low !in p.blocked && forall k | k in p.pending && k !in p.blocked :: low <= k
  }

  /** The program was interrupted in state `c` and its handler for `signum` is about to run: it gets the signal
      number as its argument, a stack 8 modulo 16 whose frame spares the red zone if there is room for it, no
      single-stepping, and all other registers as they were. */
  ghost predicate AtHandler(c: Cpu, h: Cpu, handler: Word, signum: nat) {
    && h.rip == handler && h.rdi == signum && !h.trapFlag && h.others == c.others
    && h.rsp % 16 == 8
    && (h.rsp + 8 + 16 + 128 <= c.rsp <==> c.rsp >= 160)
    && (c.rsp >= 160 ==> c.rsp - h.rsp < 168)
  }

  /** Entering the handler of the next signal. */
  lemma DeliverEntersHandler(p: Proc, low: nat)
    requires Valid(p) && !p.inHandler && IsNext(p, low) && p.actions[low].handler > 1
    ensures var q := Deliver(p, NO_FAULTS);
            && AtHandler(p.saved, q.saved, p.actions[low].handler, low)
            && q.inHandler && q.pre == Some(p.saved) && q.exited == p.exited && q.actions == p.actions
            && q.pending == p.pending - {low} && q.blocked == p.blocked && q.delivered == p.delivered + [low]
  {
    NextIsLowest(p, low);
    FrameLayout(p.saved.rsp);
  }

  lemma NextIsLowest(p: Proc, low: nat)
    requires Valid(p) && IsNext(p, low)
    ensures Lowest(Deliverable(p)) == low && Deliverable(p) != {}
  {
    assert low in Deliverable(p);
    LowestIsLeast(Deliverable(p));
  }

  /** Without a handler the next signal ends the process with 128 plus its number, unless it is SIGCHLD,
      SIGCONT or SIGURG; these, signals set to be ignored, and a fault on the way, only use it up. */
  lemma DeliverWithoutHandler(p: Proc, low: nat, faults: Faults)
    requires Valid(p) && !p.inHandler && IsNext(p, low) && (p.actions[low].handler <= 1 || Faulty(faults))
    ensures Deliver(p, faults) ==
            p.(pending := p.pending - {low},
               exited := if p.actions[low].handler == 0 && low !in {17, 18, 23} then Some(128 + low) else p.exited)
  {
    NextIsLowest(p, low);
  }

  /** In a handler, or with nothing to deliver, nothing happens. */
  lemma DeliverNothing(p: Proc, faults: Faults)
    requires Valid(p) && (p.inHandler || forall k | k in p.pending :: k in p.blocked)
    ensures Deliver(p, faults) == p
  {
  }

  /** The other kernel entries, on a process that has not exited. */
  lemma StepMeans(p: Proc, signum: int, act: Action, how: int, mask: set<nat>)
    requires Valid(p) && p.exited.None?
    ensures Step(p, Sigaction(signum, false, Some(act), false)) ==
            if 1 <= signum <= 31 && signum != 9 && signum != 19 then p.(actions := p.actions[signum := act]) else p
    ensures Step(p, Sigprocmask(how, false, Some(mask), false)) ==
            if how == 0 then p.(blocked := (p.blocked + mask) - {9, 19})
            else if how == 1 then p.(blocked := p.blocked - mask)
            else if how == 2 then p.(blocked := mask - {9, 19})
            else p
    ensures Step(p, Kill(signum)) == if 1 <= signum <= 31 then p.(pending := p.pending + {signum}) else p
  {
    assert p.blocked - mask - {SIGKILL, SIGSTOP} == p.blocked - mask;
  }

  /** sigreturn puts back every register and delivers what is next. */
  lemma SigreturnMeans(p: Proc, faults: Faults)
    requires Valid(p) && p.exited.None?
    ensures Step(p, Sigreturn(faults)) ==
            if p.pre.None? then p else Step(p.(saved := p.pre.value, pre := None, inHandler := false), Check(faults))
  {
  }

  /** A step that enters a handler. */
  lemma StepAtHandler(p: Proc, e: Event)
    requires Valid(p) && Step(p, e).delivered != p.delivered
    ensures var q := Step(p, e);
            && |q.delivered| == |p.delivered| + 1 && q.inHandler
            && var low := q.delivered[|p.delivered|];
               && low < MAX_SIGNALS && low in p.pending && low !in p.blocked && p.actions[low].handler > 1
               && AtHandler(Interrupted(p), q.saved, p.actions[low].handler, low)
  {
    var p1 := if e.Sigreturn? && p.inHandler then p.(saved := p.pre.value, inHandler := false, pre := None) else p;
    LowestIsLeast(Deliverable(p1));
    FrameLayout(p1.saved.rsp);
  }

  /** In every run each handler is entered so, whatever went before. */
  lemma RunAtHandler(p: Proc, events: seq<Event>, k: nat)
    requires Valid(p) && k < |events| && Run(p, events[..k + 1]).delivered != Run(p, events[..k]).delivered
    ensures Valid(Run(p, events[..k]))
    ensures var (before, after) := (Run(p, events[..k]), Run(p, events[..k + 1]));
            && |after.delivered| == |before.delivered| + 1
            && var low := after.delivered[|before.delivered|];
               && low < MAX_SIGNALS && low in before.pending && low !in before.blocked
               && before.actions[low].handler > 1
               && AtHandler(Interrupted(before), after.saved, before.actions[low].handler, low)
  {
    RunValid(p, events[..k]);
    RunLast(p, events[..k], events[k]);
    assert events[..k + 1] == events[..k] + [events[k]];
    StepAtHandler(Run(p, events[..k]), events[k]);
  }

  lemma {:induction false} RunLast(p: Proc, events: seq<Event>, e: Event)
    requires Valid(p)
    ensures Valid(Run(p, events)) && Run(p, events + [e]) == Step(Run(p, events), e)
    decreases |events|
  {
    if events == [] {
      assert events + [e] == [e];
      StepValid(p, e);
      assert Run(p, [e]) == Run(Step(p, e), [e][1..]);
    } else {
      StepValid(p, events[0]);
      assert (events + [e])[0] == events[0] && (events + [e])[1..] == events[1..] + [e];
      RunLast(Step(p, events[0]), events[1..], e);
    }
  }

  // ----- Bursts -------------------------------------------------------------------------

  predicate Handled(p: Proc, signum: nat)
    requires |p.actions| == MAX_SIGNALS
  {
    signum < MAX_SIGNALS && p.actions[signum].handler > 1
  }

  /** The set in increasing order. */
  function Ascending(s: set<nat>): seq<nat>
    requires SignalSet(s)
    decreases |s|
  {
    if s == {} then [] else
    LowestIsLeast(s);
    [Lowest(s)] + Ascending(s - {Lowest(s)})
  }

  predicate Increasing(a: seq<nat>) { forall j, k | 0 <= j < k < |a| :: a[j] < a[k] }

  lemma LowerFirst(low: nat, rest: seq<nat>)
    requires Increasing(rest) && forall k | k in rest :: low < k
    ensures Increasing([low] + rest)
  {
    var a := [low] + rest;
    forall j, k | 0 <= j < k < |a| ensures a[j] < a[k] {
      assert a[k] == rest[k - 1] && rest[k - 1] in rest;
      if j > 0 { assert a[j] == rest[j - 1]; }
    }
  }

  lemma {:induction false} AscendingLists(s: set<nat>)
    requires SignalSet(s)
    ensures forall k :: k in s <==> k in Ascending(s)
    ensures Increasing(Ascending(s))
    decreases |s|
  {
    if s != {} {
      LowestIsLeast(s);
      var low, rest := Lowest(s), s - {Lowest(s)};
      AscendingLists(rest);
      var tail := Ascending(rest);
      assert Ascending(s) == [low] + tail;
      assert forall k | k in tail :: k in rest;
      LowerFirst(low, tail);
    }
  }

  /** Each handler runs, leaves some register state behind, and calls sigreturn. */
  function HandlerTurns(states: seq<Cpu>): seq<Event> {
    if states == [] then [] else [HandlerRuns(states[0]), Sigreturn(NO_FAULTS)] + HandlerTurns(states[1..])
  }

  /** A burst of handled signals: one check and one sigreturn per signal deliver all of them,
      lowest number first, each once, and end in the interrupted state. */
  lemma {:induction false} BurstDelivers(p: Proc, states: seq<Cpu>)
    requires Valid(p) && !p.inHandler && p.exited.None?
    requires forall s | s in Deliverable(p) :: Handled(p, s)
    requires |states| == |Deliverable(p)|
    ensures Valid(Deliver(p, NO_FAULTS))
    ensures Run(Deliver(p, NO_FAULTS), HandlerTurns(states)) ==
            p.(pending := p.pending - Deliverable(p), delivered := p.delivered + Ascending(Deliverable(p)))
    decreases |states|
  {
    StepValid(p, Check(NO_FAULTS));
    var h := Deliverable(p);
    if h == {} {
      assert p.pending - h == p.pending && p.delivered + [] == p.delivered;
    } else {
      var p1 := AfterFirst(p);
      BurstDelivers(p1, states[1..]);
      TwoSteps(Deliver(p, NO_FAULTS), states, p1);
      BurstState(p, Lowest(h));
    }
  }

  /** The process as it is once the lowest signal's handler has returned. */
  lemma AfterFirst(p: Proc) returns (p1: Proc)
    requires Valid(p) && !p.inHandler && p.exited.None? && Deliverable(p) != {}
    requires forall s | s in Deliverable(p) :: Handled(p, s)
    ensures var (q, low) := (Deliver(p, NO_FAULTS), Lowest(Deliverable(p)));
            && low in Deliverable(p) && p1 == p.(pending := p.pending - {low}, delivered := p.delivered + [low])
            && q.inHandler && q.exited.None? && p1 == q.(saved := q.pre.value, inHandler := false, pre := None)
            && Valid(p1) && Deliverable(p1) == Deliverable(p) - {low}
            && |Deliverable(p1)| == |Deliverable(p)| - 1
  {
    LowestIsLeast(Deliverable(p));
    var low := Lowest(Deliverable(p));
    p1 := p.(pending := p.pending - {low}, delivered := p.delivered + [low]);
    assert Deliverable(p1) == Deliverable(p) - {low};
  }

  /** Delivering the lowest signal first and the rest after it delivers them all. */
  lemma BurstState(p: Proc, low: nat)
    requires SignalSet(p.pending) && Deliverable(p) != {} && low == Lowest(Deliverable(p)) && low in Deliverable(p)
    ensures var p1 := p.(pending := p.pending - {low}, delivered := p.delivered + [low]);
            p1.(pending := p1.pending - Deliverable(p1), delivered := p1.delivered + Ascending(Deliverable(p1))) ==
            p.(pending := p.pending - Deliverable(p), delivered := p.delivered + Ascending(Deliverable(p)))
  {
    var p1 := p.(pending := p.pending - {low}, delivered := p.delivered + [low]);
    var h := Deliverable(p);
    assert Deliverable(p1) == h - {low};
    assert p1.pending - Deliverable(p1) == p.pending - h;
    assert p.delivered + [low] + Ascending(h - {low}) == p.delivered + ([low] + Ascending(h - {low}));
  }

  lemma RunTwo(p: Proc, d: Event, e: Event, rest: seq<Event>)
    requires Valid(p)
    ensures Valid(Step(p, d)) && Valid(Step(Step(p, d), e))
    ensures Run(p, [d, e] + rest) == Run(Step(Step(p, d), e), rest)
  {
    StepValid(p, d);
    StepValid(Step(p, d), e);
    var events := [d, e] + rest;
    assert events[1..] == [e] + rest && ([e] + rest)[1..] == rest;
  }

  /** One turn of a handler: whatever it did to the registers, sigreturn restores and re-checks. */
  lemma TwoSteps(q: Proc, states: seq<Cpu>, p1: Proc)
    requires Valid(q) && q.inHandler && q.exited.None? && states != []
    requires p1 == q.(saved := q.pre.value, inHandler := false, pre := None)
    ensures Valid(p1) && Valid(Deliver(p1, NO_FAULTS))
    ensures Run(q, HandlerTurns(states)) == Run(Deliver(p1, NO_FAULTS), HandlerTurns(states[1..]))
  {
    StepValid(p1, Check(NO_FAULTS));
    RunTwo(q, HandlerRuns(states[0]), Sigreturn(NO_FAULTS), HandlerTurns(states[1..]));
    assert Step(Step(q, HandlerRuns(states[0])), Sigreturn(NO_FAULTS)) == Deliver(p1, NO_FAULTS);
  }

  /** An ignored signal uses up the check: deliverable signals stay behind with no handler
      entered exactly when the lowest one was ignored and was not the only one. */
  lemma CheckLeavesSignals(p: Proc)
    requires Valid(p) && !p.inHandler && p.exited.None? && Deliverable(p) != {}
    ensures var q := Deliver(p, NO_FAULTS);
            var low := Lowest(Deliverable(p));
            !q.inHandler && q.exited.None? && Deliverable(q) != {} <==>
            (p.actions[low].handler == 1 || (p.actions[low].handler == 0 && IgnoredByDefault(low))) &&
                Deliverable(p) != {low}
  {
    LowestIsLeast(Deliverable(p));
    var low := Lowest(Deliverable(p));
    assert (p.pending - {low}) - p.blocked == Deliverable(p) - {low};
    assert Deliverable(p) - {low} == {} <==> Deliverable(p) == {low};
  }

  /** A signal with a handler is lost by the check, neither pending nor entered, exactly when the
      allocation or one of the copies to the user stack fails. */
  lemma LostIff(p: Proc, faults: Faults)
    requires Valid(p) && !p.inHandler && Deliverable(p) != {}
    requires p.actions[Lowest(Deliverable(p))].handler > 1
    ensures var q := Deliver(p, faults);
            var low := Lowest(Deliverable(p));
            && (low !in q.pending && q.delivered == p.delivered <==> Faulty(faults))
            && (Faulty(faults) ==> q == p.(pending := p.pending - {low}))
  {
    LowestIsLeast(Deliverable(p));
  }

  /** A signal that is not pending and not sent again is never entered, whatever else happens. */
  lemma {:induction false} NeverEntered(p: Proc, events: seq<Event>, sig: nat)
    requires Valid(p) && sig !in p.pending && forall k | 0 <= k < |events| :: events[k] != Kill(sig)
    ensures sig !in Run(p, events).pending
    ensures multiset(Run(p, events).delivered)[sig] == multiset(p.delivered)[sig]
    decreases |events|
  {
    if events != [] {
      StepValid(p, events[0]);
      StepEnters(p, events[0], sig);
      assert forall k | 0 <= k < |events[1..]| :: events[1..][k] == events[k + 1];
      NeverEntered(Step(p, events[0]), events[1..], sig);
    }
  }

  lemma StepEnters(p: Proc, e: Event, sig: nat)
    requires Valid(p) && sig !in p.pending && e != Kill(sig)
    ensures sig !in Step(p, e).pending && multiset(Step(p, e).delivered)[sig] == multiset(p.delivered)[sig]
  {
    DeliverEnters(p, sig, if e.Check? then e.faults else NO_FAULTS);
    if e.Sigreturn? && p.inHandler {
      DeliverEnters(p.(saved := p.pre.value, inHandler := false, pre := None), sig, e.faults);
    }
  }

  lemma DeliverEnters(p: Proc, sig: nat, faults: Faults)
    requires Valid(p) && sig !in p.pending
    ensures sig !in Deliver(p, faults).pending
    ensures multiset(Deliver(p, faults).delivered)[sig] == multiset(p.delivered)[sig]
  {
    if Deliverable(p) != {} { LowestIsLeast(Deliverable(p)); }
  }

  /** A run that loses SIGUSR1: the handler is set, the signal is sent, and the check finds no memory. */
  lemma LostRun(p: Proc, handler: Word, rest: seq<Event>)
    requires Valid(p) && !p.inHandler && p.exited.None? && p.pending == {} && p.blocked == {} && handler > 1
    requires forall k | 0 <= k < |rest| :: rest[k] != Kill(SIGUSR1)
    ensures var q := Run(p, LosingEvents(handler) + rest);
            SIGUSR1 !in q.pending && multiset(q.delivered)[SIGUSR1] == multiset(p.delivered)[SIGUSR1]
  {
    var act := Action(handler, 0, 0);
    var (e1, e2, e3) := (Sigaction(SIGUSR1, false, Some(act), false), Kill(SIGUSR1), Check(Faults(true, false, false)));
    StepValid(p, e1);
    var p1 := Step(p, e1);
    StepValid(p1, e2);
    var p2 := Step(p1, e2);
    assert Deliverable(p2) == {SIGUSR1};
    LowestIsLeast(Deliverable(p2));
    LostIff(p2, e3.faults);
    StepValid(p2, e3);
    var p3 := Step(p2, e3);
    var events := LosingEvents(handler) + rest;
    assert events[1..] == [e2, e3] + rest && ([e2, e3] + rest)[1..] == [e3] + rest && ([e3] + rest)[1..] == rest;
    assert Run(p, events) == Run(p1, [e2, e3] + rest) == Run(p2, [e3] + rest) == Run(p3, rest);
    NeverEntered(p3, rest, SIGUSR1);
  }

  function LosingEvents(handler: Word): seq<Event> {
    [Sigaction(SIGUSR1, false, Some(Action(handler, 0, 0)), false), Kill(SIGUSR1), Check(Faults(true, false, false))]
  }

  // ----- The process structure ------------------------------------------------------------

  /** Bytes written to user memory from an address on. */
  function Poked(m: map<Word, nat>, at: Word, bytes: seq<nat>): map<Word, nat> {
    m + map w: Word | at <= w < at + |bytes| && Within(w, at, |bytes|) :: bytes[w - at]
  }

  predicate Within(w: Word, at: Word, n: nat) { at <= w < at + n }

  /** mov rax, 27; syscall; int3 to the end (the initialiser names 15 of the 16 bytes, the last is 0). */
  const TRAMPOLINE_CODE: seq<nat> :=
    [0x48, 0xC7, 0xC0, 0x1B, 0, 0, 0, 0x0F, 0x05, 0xCC, 0xCC, 0xCC, 0xCC, 0xCC, 0xCC, 0]

  /** The eight bytes of a word, lowest first. */
  function WordBytes(w: Word): (b: seq<nat>)
    ensures |b| == 8
  {
    [w % 0x100, w / 0x100 % 0x100, w / 0x1_0000 % 0x100, w / 0x100_0000 % 0x100, w / 0x1_0000_0000 % 0x100,
     w / 0x100_0000_0000 % 0x100, w / 0x1_0000_0000_0000 % 0x100, w / 0x100_0000_0000_0000 % 0x100]
  }

  /** The bytes `code` at `at` and `target` at `slot`, and no other byte changed. */
  ghost predicate Framed(was: map<Word, nat>, now: map<Word, nat>, at: Word, code: seq<nat>, slot: Word,
                         target: seq<nat>)
  {
    && (forall w: Word | Within(w, at, |code|) :: w in now && now[w] == code[w - at])
    && (forall w: Word | Within(w, slot, |target|) :: w in now && now[w] == target[w - slot])
    && (forall w: Word | !Within(w, at, |code|) && !Within(w, slot, |target|) ::
          (w in now <==> w in was) && (w in was ==> now[w] == was[w]))
  }

  /** A `ret` at the start of the handler's stack leads to the code that calls sigreturn. */
  ghost predicate ReturnsToCode(was: map<Word, nat>, now: map<Word, nat>, rsp: Word) {
    var code := (rsp + 8) % WRAP;
    code % 16 == 0 && Framed(was, now, code, TRAMPOLINE_CODE, rsp, WordBytes(code))
  }

  /** The place of the return address. */
  function SlotBelow(tramp: Word): (slot: Word)
    requires tramp % 16 == 0
    ensures slot == (tramp - 8) % WRAP && (slot + 8) % WRAP == tramp && (slot + 8 <= tramp || tramp + 16 <= slot)
  {
    (tramp - 8) % WRAP
  }

  lemma FrameWritten(m: map<Word, nat>, at: Word, code: seq<nat>, slot: Word, target: seq<nat>)
    requires at + |code| <= slot || slot + |target| <= at
    ensures Framed(m, Poked(Poked(m, at, code), slot, target), at, code, slot, target)
  {
  }

  class Process {
    var user: map<Word, nat>    // the bytes of user memory that have been written
    var pending: set<nat>
    var blocked: set<nat>
    var actions: seq<Action>
    var saved: Cpu
    var pre: Option<Cpu>
    var inHandler: bool
    var exited: Option<nat>
    ghost var delivered: seq<nat>

    ghost function State(): Proc
      reads this
    {
      Proc(pending, blocked, actions, saved, pre, inHandler, exited, delivered)
    }

    constructor (saved: Cpu)
      ensures Valid(State()) && this.saved == saved && !inHandler && pending == {} && exited.None?
    {
      user, pending, blocked := map[], {}, {};
      actions := seq(MAX_SIGNALS, _ => Action(0, 0, 0));
      this.saved, pre, inHandler, exited, delivered := saved, None, false, None, [];
    }

    method SignalSigaction(signum: int, oldFault: bool, act: Option<Action>, actFault: bool) returns (rc: int)
      requires Valid(State()) && exited.None?
      modifies this
      ensures State() == Step(old(State()), Sigaction(signum, oldFault, act, actFault)) && user == old(user)
      ensures rc == -22 <==> signum < 1 || signum >= MAX_SIGNALS || signum == SIGKILL || signum == SIGSTOP
      ensures rc != -22 ==> rc == if oldFault || (act.Some? && actFault) then -14 else 0
    {
      if signum < 1 || signum >= MAX_SIGNALS { return -22; }
      if signum == SIGKILL || signum == SIGSTOP { return -22; }
      if oldFault { return -14; }
      if act.Some? {
        if actFault { return -14; }
        actions := actions[signum := act.value];
      }
      return 0;
    }

    method SignalSigprocmask(how: int, oldFault: bool, mask: Option<set<nat>>, maskFault: bool) returns (rc: int)
      requires Valid(State()) && exited.None?
      modifies this
      ensures State() == Step(old(State()), Sigprocmask(how, oldFault, mask, maskFault)) && user == old(user)
      ensures rc == if oldFault || (mask.Some? && maskFault) then -14
                    else if mask.Some? && !(0 <= how <= 2) then -22 else 0
    {
      if oldFault { return -14; }
      if mask.Some? {
        if maskFault { return -14; }
        match how {
          case 0 => blocked := blocked + mask.value;
          case 1 => blocked := blocked - mask.value;
          case 2 => blocked := mask.value;
          case _ => return -22;
        }
        blocked := blocked - {SIGKILL, SIGSTOP};
      }
      return 0;
    }

    /** The effect of signal_kill on the process it finds. */
    method SignalKill(sig: int) returns (rc: int)
      requires Valid(State()) && exited.None?
      modifies this
      ensures State() == Step(old(State()), Kill(sig)) && user == old(user)
      ensures rc == if sig < 0 || sig >= MAX_SIGNALS then -22 else 0
    {
      if sig < 0 || sig >= MAX_SIGNALS { return -22; }
      if sig == 0 { return 0; }
      pending := pending + {sig};
      return 0;
    }

    method CheckAndDeliver(faults: Faults)
      requires Valid(State()) && exited.None?
      modifies this
      ensures State() == Deliver(old(State()), faults)
      ensures inHandler && !old(inHandler) ==> ReturnsToCode(old(user), user, saved.rsp)
      ensures old(inHandler) || (!inHandler && !faults.ret) ==> user == old(user)
    {
      if inHandler { return; }
      if pending == {} { return; }
      var deliverable := pending - blocked;
      if deliverable == {} { return; }
      var signum := NextSignal(deliverable);
      pending := pending - {signum};
      var handler := actions[signum].handler;
      if handler == 0 {
        if signum == SIGCHLD || signum == SIGCONT || signum == SIGURG { return; }
        exited := Some(128 + signum);
        return;
      }
      if handler == 1 { return; }
      EnterWith(signum, handler, faults);
    }

    /** The scan for the lowest set bit. */
    method NextSignal(deliverable: set<nat>) returns (signum: nat)
      ensures signum == Lowest(deliverable)
    {
      signum := 1;
      var i := 1;
      while i < MAX_SIGNALS
        invariant 1 <= i <= MAX_SIGNALS && signum == 1
        invariant LowestFrom(deliverable, i) == Lowest(deliverable)
      {
        if i in deliverable { return i; }
        i := i + 1;
      }
    }

    /** The part of signal_check_and_deliver that saves the registers and builds the frame. */
    method EnterWith(signum: nat, handler: Word, faults: Faults)
      requires signum < MAX_SIGNALS && !inHandler && pre.None?
      modifies this`pre, this`user, this`saved, this`inHandler, this`delivered
      ensures inHandler == !Faulty(faults)
      ensures inHandler ==>
                && pre == Some(old(saved)) && saved == EnterHandler(old(saved), handler, signum)
                && delivered == old(delivered) + [signum] && ReturnsToCode(old(user), user, saved.rsp)
      ensures !inHandler ==>
                pre.None? && saved == old(saved) && delivered == old(delivered) && (!faults.ret ==> user == old(user))
    {
      if faults.alloc { return; }
      pre := Some(saved);
      var tramp := Trampoline(saved.rsp);
      if faults.code {
        pre := None;
        return;
      }
      user := Poked(user, tramp, TRAMPOLINE_CODE);
      if faults.ret {
        pre := None;
        return;
      }
      PushReturn(tramp, old(user));
      saved := saved.(rip := handler, rdi := signum, rsp := (tramp - 8) % WRAP, trapFlag := false);
      inHandler := true;
      delivered := delivered + [signum];
    }

    /** The return address below the trampoline just written. */
    method PushReturn(tramp: Word, ghost was: map<Word, nat>)
      requires tramp % 16 == 0 && user == Poked(was, tramp, TRAMPOLINE_CODE)
      modifies this`user
      ensures ReturnsToCode(was, user, (tramp - 8) % WRAP)
    {
      var slot := SlotBelow(tramp);
      FrameWritten(was, tramp, TRAMPOLINE_CODE, slot, WordBytes(tramp));
      user := Poked(user, slot, WordBytes(tramp));
    }

    method SignalSigreturn(faults: Faults) returns (rc: int)
      requires Valid(State()) && exited.None?
      modifies this
      ensures State() == Step(old(State()), Sigreturn(faults))
      ensures rc == if old(inHandler) then 0 else -22
      ensures inHandler && rc == 0 ==> ReturnsToCode(old(user), user, saved.rsp)
    {
      if !inHandler || pre.None? { return -22; }
      saved := pre.value;
      inHandler := false;
      pre := None;
      CheckAndDeliver(faults);
      return 0;
    }
  }

  // ----- The process table --------------------------------------------------------------

  datatype RunState = Free | Runnable | Blocked | Zombie

  datatype Slot = Slot(pid: int, state: RunState, proc: Proc)

  /** A slot to which a signal was sent: it is pending, and a blocked process can run. */
  function Sent(slot: Slot, sig: nat): Slot {
    slot.(proc := slot.proc.(pending := slot.proc.pending + {sig}),
          state := if slot.state == Blocked then Runnable else slot.state)
  }

  class ProcessTable {
    var table: seq<Slot>

    constructor (table: seq<Slot>)
      ensures this.table == table
    {
      this.table := table;
    }

    /** signal_kill reaches the process it finds for a positive pid, else all that live; `found` is what the
        lookup of a positive pid gives. */
    method SignalKill(pid: int, sig: int, found: Option<nat>) returns (rc: int)
      requires found.Some? ==> found.value < |table| && table[found.value].pid == pid
      modifies this
      ensures rc == if sig < 0 || sig >= MAX_SIGNALS then -22 else if pid > 0 && found.None? then -3 else 0
      ensures |table| == |old(table)|
      ensures forall i: nat | i < |table| ::
                table[i] == if rc == 0 && sig != 0 &&
                               (if pid > 0 then found == Some(i)
                                else old(table)[i].state == Runnable || old(table)[i].state == Blocked)
                            then Sent(old(table)[i], sig) else old(table)[i]
    {
      if sig < 0 || sig >= MAX_SIGNALS { return -22; }
      if pid > 0 {
        if found.None? { return -3; }
        if sig == 0 { return 0; }
        table := table[found.value := Sent(table[found.value], sig)];
        return 0;
      }
      for i := 0 to |table|
        invariant |table| == |old(table)|
        invariant forall k: nat | i <= k < |table| :: table[k] == old(table)[k]
        invariant forall k: nat | k < i ::
                    table[k] == if sig != 0 && (old(table)[k].state == Runnable || old(table)[k].state == Blocked)
                                then Sent(old(table)[k], sig) else old(table)[k]
      {
        if table[i].state != Free && table[i].state != Zombie {
          if sig != 0 { table := table[i := Sent(table[i], sig)]; }
        }
      }
      return 0;
    }
  }

  /** What a slot's process sees of it is the kill step. */
  lemma SentIsKill(slot: Slot, sig: nat)
    requires Valid(slot.proc) && slot.proc.exited.None? && 1 <= sig < MAX_SIGNALS
    ensures Sent(slot, sig).proc == Step(slot.proc, Kill(sig)) && Sent(slot, sig).pid == slot.pid
    ensures Sent(slot, sig).state == match slot.state case Blocked => Runnable case other => other
  {
  }
}
