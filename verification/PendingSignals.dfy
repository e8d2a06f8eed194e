/**
 Pending guest signals of one thread. Host signals interrupt the thread between any two atomic
 accesses and their handlers run to completion before it goes on, so the thread is a stack of
 activations of which only the top one runs. An activation is a call of one of the functions below,
 stopped at its next access to the pending-signals status or to the signal queue.
 */
module PendingSignals {
  import opened SignalQueueSpec

  datatype Status = Disabled | Enabled | Present

  /** HandleHostSignal: TestAndEnable, then the two halves of SetSignalFromHost, then maybe a drain. */
  datatype HandlerAt = HEnable | HEnqueue | HMark | HWait | HReturn

  /** RunGuestCall under ScopedPendingSignalsEnabler. In its body guest code runs. */
  datatype CallAt = CEnter | CBody | CWait | CReturn

  /** A scope under ScopedPendingSignalsDisabler, such as a system call. */
  datatype ScopeAt = SWait | SBody

  /** ProcessPendingSignals. */
  datatype PollAt = PLoad | PWait

  /** ProcessAndDisablePendingSignals. */
  datatype DisableAt = DCas | DWait

  /** ProcessPendingSignalsImpl, with DequeueSignalUnsafe in its three steps. */
  datatype DrainAt = IStore | ITake | IMerge(taken: seq<Signal>) | IPick | ICall | IWait

  /** `prev` is what the activation remembers: were pending signals enabled when it began? */
  datatype Frame =
    | Handler(sig: Signal, h: HandlerAt, prev: bool)
    | Call(c: CallAt, prev: bool)
    | Scope(s: ScopeAt, prev: bool)
    | Poll(p: PollAt)
    | Disable(d: DisableAt)
    | Drain(i: DrainAt)

  datatype Stack = Bottom | Top(frame: Frame, below: Stack)

  datatype Thread = Thread(
    status: Status,
    produced: seq<Signal>,
    consumed: seq<Signal>,
    stack: Stack,
    raised: seq<Signal>,     // host signals so far
    delivered: seq<Signal>)  // signals handed to guest handlers so far

  datatype Outcome<+T> = CheckFailed | Ok(value: T)

  datatype Act =
    | Interrupt(sig: Signal)  // a host signal arrives
    | Fault(sig: Signal)      // a host fault that is redirected to recovery code, with pending signals enabled
    | Kick                    // another thread forces this one to the dispatcher
    | Tick                    // the top activation makes its next access
    | WeakCasFails            // compare_exchange_weak fails although the status is Enabled
    | CallGuest
    | EnterScope
    | PollNow
    | Leave                   // the body of a call or a scope ends

  const ATTACHED: Thread := Thread(Disabled, [], [], Bottom, [], [])

  function Push(t: Thread, f: Frame): Thread {
    t.(stack := Top(f, t.stack))
  }

  /** Replaces the running activation. */
  function Now(t: Thread, f: Frame): Thread
    requires t.stack.Top?
  {
    t.(stack := Top(f, t.stack.below))
  }

  function Enable(t: Thread): Thread {
    if t.status == Disabled then t.(status := Enabled) else t
  }

  /** The activation below goes on after the call it waits for has returned `result`. */
  function Resume(f: Frame, result: bool): Outcome<Frame> {
    match f
    case Handler(sig, HWait, prev) => Ok(Handler(sig, HReturn, prev))
    case Call(CWait, prev) => if result then Ok(Call(CReturn, prev)) else CheckFailed
    case Scope(SWait, _) => Ok(Scope(SBody, result))
    case Poll(PWait) => Ok(Poll(PLoad))
    case Disable(DWait) => Ok(Disable(DCas))
    case Drain(IWait) => Ok(Drain(ITake))
    case _ => Ok(f)
  }

  function Return(t: Thread, result: bool): Outcome<Thread>
    requires t.stack.Top?
  {
    match t.stack.below
    case Bottom => Ok(t.(stack := Bottom))
    case Top(f, rest) =>
      match Resume(f, result)
      case CheckFailed => CheckFailed
      case Ok(g) => Ok(t.(stack := Top(g, rest)))
  }

  predicate IsBody(s: Stack) {
    s.Top? && ((s.frame.Call? && s.frame.c.CBody?) || (s.frame.Scope? && s.frame.s.SBody?))
  }

  predicate MayAct(t: Thread, a: Act) {
    match a
    case Interrupt(_) => true
    case Fault(_) => t.status != Disabled
    case Kick => true
    case Tick => t.stack.Top? && !IsBody(t.stack)
    case WeakCasFails => t.stack.Top? && t.stack.frame == Disable(DCas) && t.status == Enabled
    case CallGuest => t.stack.Bottom? || IsBody(t.stack)
    case EnterScope => IsBody(t.stack)
    case PollNow => IsBody(t.stack) && t.stack.frame.Call?
    case Leave => IsBody(t.stack)
  }

  function HandlerTick(t: Thread): Outcome<Thread>
    requires t.stack.Top? && t.stack.frame.Handler?
  {
    var Handler(sig, at, prev) := t.stack.frame;
    match at
    case HEnable => Ok(Now(Enable(t), Handler(sig, HEnqueue, t.status != Disabled)))
    case HEnqueue => Ok(Now(t.(produced := [sig] + t.produced), Handler(sig, HMark, prev)))
    case HMark =>
      if t.status == Disabled then CheckFailed
      else if prev then Ok(Now(t.(status := Present), Handler(sig, HReturn, prev)))
      else Ok(Push(Now(t.(status := Present), Handler(sig, HWait, prev)), Disable(DCas)))
    case HWait => CheckFailed
    case HReturn => Return(t, true)
  }

  function DrainTick(t: Thread): Outcome<Thread>
    requires t.stack.Top? && t.stack.frame.Drain?
  {
    match t.stack.frame.i
    case IStore => Ok(Now(t.(status := Enabled), Drain(ITake)))
    case ITake => Ok(Now(t.(produced := []), Drain(IMerge(t.produced))))
    case IMerge(taken) => Ok(Now(t.(consumed := taken + t.consumed), Drain(IPick)))
    case IPick =>
      if t.consumed == [] then Return(t, true)
      else
        var k := Best(t.consumed);
        Ok(Now(t.(consumed := Without(t.consumed, k), delivered := t.delivered + [t.consumed[k]]), Drain(ICall)))
    case ICall => Ok(Push(Now(t, Drain(IWait)), Call(CEnter, false)))
    case IWait => CheckFailed
  }

  function DoTick(t: Thread): Outcome<Thread>
    requires MayAct(t, Tick)
  {
    match t.stack.frame
    case Handler(_, _, _) => HandlerTick(t)
    case Call(CEnter, _) => Ok(Now(Enable(t), Call(CBody, t.status != Disabled)))
    case Call(CReturn, _) => Return(t, true)
    case Poll(PLoad) =>
      (match t.status
       case Disabled => CheckFailed
       case Enabled => Return(t, true)
       case Present => Ok(Push(Now(t, Poll(PWait)), Drain(IStore))))
    case Disable(DCas) =>
      (match t.status
       case Disabled => Return(t, false)
       case Enabled => Return(t.(status := Disabled), true)
       case Present => Ok(Push(Now(t, Disable(DWait)), Drain(IStore))))
    case Drain(_) => DrainTick(t)
    case _ => CheckFailed
  }

  function DoLeave(t: Thread): Outcome<Thread>
    requires MayAct(t, Leave)
  {
    match t.stack.frame
    case Call(_, prev) =>
      if prev then Ok(Now(t, Call(CReturn, prev))) else Ok(Push(Now(t, Call(CWait, prev)), Disable(DCas)))
    case Scope(_, prev) =>
      if !prev then Return(t, true)
      else if t.status != Disabled then CheckFailed
      else Return(t.(status := Enabled), true)
    case _ => CheckFailed
  }

  /** HandleFaultForRecovery, undisturbed: enable, enqueue, mark, return. Unlike the handler it never disables again. */
  function FaultRecovered(t: Thread, sig: Signal): Thread {
    Enable(t).(status := Present, produced := [sig] + t.produced, raised := t.raised + [sig])
  }

  function Step(t: Thread, a: Act): Outcome<Thread>
    requires MayAct(t, a)
  {
    match a
    case Interrupt(sig) => Ok(Push(t.(raised := t.raised + [sig]), Handler(sig, HEnable, false)))
    case Fault(sig) => Ok(FaultRecovered(t, sig))
    case Kick => Ok(if t.status == Enabled then t.(status := Present) else t)
    case Tick => DoTick(t)
    case WeakCasFails => Ok(Push(Now(t, Disable(DWait)), Drain(IStore)))
    case CallGuest => Ok(Push(t, Call(CEnter, false)))
    case EnterScope => Ok(Push(Push(t, Scope(SWait, false)), Disable(DCas)))
    case PollNow => Ok(Push(t, Poll(PLoad)))
    case Leave => DoLeave(t)
  }

  // The invariant.

  /** Are pending signals enabled, by the position of every activation on the stack? */
  ghost function On(s: Stack): bool {
    match s
    case Bottom => false
    case Top(Handler(_, HEnable, _), b) => On(b)
    case Top(Handler(_, HReturn, prev), _) => prev
    case Top(Handler(_, _, _), _) => true
    case Top(Call(CEnter, _), b) => On(b)
    case Top(Call(CReturn, prev), _) => prev
    case Top(Call(_, _), _) => true
    case Top(Scope(SWait, _), b) => On(b)
    case Top(Scope(SBody, _), _) => false
    case Top(Poll(_), _) => true
    case Top(Disable(_), b) => On(b)
    case Top(Drain(_), _) => true
  }

  /** The frame waits for a call it has made. */
  predicate Waits(f: Frame) {
    match f
    case Handler(_, HWait, _) => true
    case Call(CWait, _) => true
    case Scope(SWait, _) => true
    case Poll(PWait) => true
    case Disable(DWait) => true
    case Drain(IWait) => true
    case _ => false
  }

  /** What may run directly on top of a stack: a handler anywhere nobody waits, or the call it makes. */
  predicate MayRest(f: Frame, b: Stack) {
    match b
    case Bottom => f.Handler? || f.Call?
    case Top(Handler(_, HWait, _), _) => f.Disable?
    case Top(Call(CWait, _), _) => f.Disable?
    case Top(Scope(SWait, _), _) => f.Disable?
    case Top(Poll(PWait), _) => f.Drain?
    case Top(Disable(DWait), _) => f.Drain?
    case Top(Drain(IWait), _) => f.Call?
    case Top(Call(CBody, _), _) => f.Handler? || f.Call? || f.Scope? || f.Poll?
    case Top(Scope(SBody, _), _) => f.Handler? || f.Call? || f.Scope?
    case _ => f.Handler?
  }

  /** What the frame remembers is true of the stack below it. */
  predicate Remembers(f: Frame, on: bool) {
    match f
    case Handler(_, at, prev) => at == HEnable || (prev == on && (at == HWait ==> !prev))
    case Call(at, prev) => at == CEnter || (prev == on && (at == CWait ==> !prev))
    case Scope(at, prev) => at == SWait || prev == on
    case Poll(_) => on
    case Disable(at) => at == DWait ==> on
    case Drain(_) => on
  }

  ghost predicate StackOk(s: Stack) {
    s.Top? ==> StackOk(s.below) && MayRest(s.frame, s.below) && Remembers(s.frame, On(s.below))
  }

  /** Some activation is about to mark the status, or to take the produced list. */
  ghost predicate Watched(s: Stack) {
    s.Top? && (Watched(s.below) || (s.frame.Handler? && s.frame.h.HMark?) || (s.frame.Drain? && s.frame.i.ITake?))
  }

  /** A drain has begun and not ended. */
  ghost predicate Draining(s: Stack) {
    s.Top? && (Draining(s.below) || (s.frame.Drain? && !s.frame.i.IStore?))
  }

  /** Signals carried by an activation: not yet enqueued, or taken and not yet merged. */
  function Carried(f: Frame): seq<Signal> {
    match f
    case Handler(sig, at, _) => if at == HEnable || at == HEnqueue then [sig] else []
    case Drain(IMerge(taken)) => taken
    case _ => []
  }

  ghost function CarriedIn(s: Stack, x: Signal): nat {
    if s.Bottom? then 0 else multiset(Carried(s.frame))[x] + CarriedIn(s.below, x)
  }

  /** How often x is still on its way or has been delivered. */
  ghost function Total(t: Thread, x: Signal): nat {
    CarriedIn(t.stack, x) + multiset(t.produced)[x] + multiset(t.consumed)[x] + multiset(t.delivered)[x]
  }

  ghost predicate Conserved(t: Thread) {
    forall x :: multiset(t.raised)[x] == Total(t, x)
  }

  ghost predicate Shape(t: Thread) {
    && StackOk(t.stack)
    && (t.stack.Top? ==> !Waits(t.stack.frame))
    && (t.status == Disabled <==> !On(t.stack))
    && (t.produced != [] ==> t.status == Present || Watched(t.stack))
    && (t.consumed != [] ==> Draining(t.stack))
  }

  ghost predicate Inv(t: Thread) {
    Shape(t) && Conserved(t)
  }

  /** Returning hands the stack below back as it was, or with its caller one step further. */
  lemma ReturnFacts(t: Thread, result: bool)
    requires t.stack.Top? && StackOk(t.stack) && !Waits(t.stack.frame)
    requires t.stack.frame.Disable? ==> result == On(t.stack.below)
    requires !t.stack.frame.Disable? ==> result
    ensures var r := Return(t, result);
            && r.Ok? && r.value == t.(stack := r.value.stack)
            && StackOk(r.value.stack)
            && (r.value.stack.Top? ==> !Waits(r.value.stack.frame))
            && On(r.value.stack) == (!t.stack.frame.Disable? && On(t.stack.below))
            && (Watched(t.stack.below) ==> Watched(r.value.stack))
            && (Draining(t.stack.below) ==> Draining(r.value.stack))
            && (forall x :: CarriedIn(r.value.stack, x) == CarriedIn(t.stack.below, x))
            && (t.stack.frame.Handler? ==> r.value.stack == t.stack.below)
  {
    var b := t.stack.below;
    assert StackOk(b);
    if b.Top? {
      assert StackOk(b.below);
    }
  }

  /** The running activation moves on in place. */
  lemma NowFacts(t: Thread, f: Frame)
    requires t.stack.Top? && StackOk(t.stack)
    requires Remembers(f, On(t.stack.below)) && MayRest(f, t.stack.below)
    ensures StackOk(Now(t, f).stack)
    ensures forall x :: CarriedIn(Now(t, f).stack, x) == multiset(Carried(f))[x] + CarriedIn(t.stack.below, x)
    ensures forall x :: CarriedIn(t.stack, x) == multiset(Carried(t.stack.frame))[x] + CarriedIn(t.stack.below, x)
    ensures Watched(t.stack.below) ==> Watched(Now(t, f).stack)
    ensures Draining(t.stack.below) ==> Draining(Now(t, f).stack)
  {
  }

  lemma PushFacts(t: Thread, f: Frame)
    requires StackOk(t.stack) && Remembers(f, On(t.stack)) && MayRest(f, t.stack)
    ensures StackOk(Push(t, f).stack)
    ensures forall x :: CarriedIn(Push(t, f).stack, x) == multiset(Carried(f))[x] + CarriedIn(t.stack, x)
    ensures Watched(t.stack) ==> Watched(Push(t, f).stack)
    ensures Draining(t.stack) ==> Draining(Push(t, f).stack)
  {
  }

  lemma HandlerTickKeepsShape(t: Thread)
    requires Shape(t) && t.stack.Top? && t.stack.frame.Handler?
    ensures HandlerTick(t).Ok? && Shape(HandlerTick(t).value)
  {
    var Handler(sig, at, prev) := t.stack.frame;
    match at
    case HEnable =>
      NowFacts(t, Handler(sig, HEnqueue, t.status != Disabled));
    case HEnqueue =>
      NowFacts(t, Handler(sig, HMark, prev));
    case HMark =>
      if prev {
        NowFacts(t, Handler(sig, HReturn, prev));
      } else {
        var n := Now(t.(status := Present), Handler(sig, HWait, prev));
        NowFacts(t, Handler(sig, HWait, prev));
        PushFacts(n, Disable(DCas));
      }
    case HReturn =>
      ReturnFacts(t, true);
  }

  lemma EnqueueConserves(t: Thread, x: Signal)
    requires t.stack.Top? && t.stack.frame.Handler? && t.stack.frame.h.HEnqueue?
    ensures Total(HandlerTick(t).value, x) == Total(t, x)
  {
    assert multiset([t.stack.frame.sig] + t.produced) == multiset([t.stack.frame.sig]) + multiset(t.produced);
  }

  lemma MarkConserves(t: Thread, x: Signal)
    requires t.stack.Top? && t.stack.frame.Handler? && t.stack.frame.h.HMark? && t.status != Disabled
    ensures Total(HandlerTick(t).value, x) == Total(t, x)
  {
    var Handler(sig, _, prev) := t.stack.frame;
    var waiting := Top(Handler(sig, HWait, prev), t.stack.below);
    assert CarriedIn(waiting, x) == CarriedIn(t.stack.below, x) == CarriedIn(t.stack, x);
    assert CarriedIn(Top(Disable(DCas), waiting), x) == CarriedIn(waiting, x);
  }

  lemma HandlerTickConserves(t: Thread, x: Signal)
    requires Shape(t) && t.stack.Top? && t.stack.frame.Handler?
    ensures HandlerTick(t).Ok? && HandlerTick(t).value.raised == t.raised
    ensures Total(HandlerTick(t).value, x) == Total(t, x)
  {
    match t.stack.frame.h
    case HEnqueue => EnqueueConserves(t, x);
    case HReturn => ReturnFacts(t, true);
    case HMark => MarkConserves(t, x);
    case _ =>
  }

  lemma DrainTickKeepsShape(t: Thread)
    requires Shape(t) && t.stack.Top? && t.stack.frame.Drain?
    ensures DrainTick(t).Ok? && Shape(DrainTick(t).value)
  {
    match t.stack.frame.i
    case IStore => NowFacts(t, Drain(ITake));
    case ITake => NowFacts(t, Drain(IMerge(t.produced)));
    case IMerge(_) => NowFacts(t, Drain(IPick));
    case IPick =>
      if t.consumed == [] {
        ReturnFacts(t, true);
      } else {
        NowFacts(t, Drain(ICall));
      }
    case ICall =>
      NowFacts(t, Drain(IWait));
      PushFacts(Now(t, Drain(IWait)), Call(CEnter, false));
  }

  lemma MergeConserves(t: Thread, x: Signal)
    requires t.stack.Top? && t.stack.frame.Drain? && t.stack.frame.i.IMerge?
    ensures Total(DrainTick(t).value, x) == Total(t, x)
  {
    var taken := t.stack.frame.i.taken;
    assert multiset(taken + t.consumed) == multiset(taken) + multiset(t.consumed);
  }

  lemma PickConserves(t: Thread, x: Signal)
    requires t.stack.Top? && t.stack.frame.Drain? && t.stack.frame.i.IPick? && t.consumed != []
    ensures Total(DrainTick(t).value, x) == Total(t, x)
  {
    var c, k := t.consumed, Best(t.consumed);
    assert c == c[..k] + [c[k]] + c[k + 1..];
    assert multiset(c) == multiset(Without(c, k)) + multiset([c[k]]);
    assert multiset(t.delivered + [c[k]]) == multiset(t.delivered) + multiset([c[k]]);
  }

  lemma CallConserves(t: Thread, x: Signal)
    requires t.stack.Top? && t.stack.frame.Drain? && t.stack.frame.i.ICall?
    ensures Total(DrainTick(t).value, x) == Total(t, x)
  {
    var waiting := Top(Drain(IWait), t.stack.below);
    assert CarriedIn(waiting, x) == CarriedIn(t.stack.below, x) == CarriedIn(t.stack, x);
    assert CarriedIn(Top(Call(CEnter, false), waiting), x) == CarriedIn(waiting, x);
  }

  lemma DrainTickConserves(t: Thread, x: Signal)
    requires Shape(t) && t.stack.Top? && t.stack.frame.Drain?
    ensures DrainTick(t).Ok? && DrainTick(t).value.raised == t.raised
    ensures Total(DrainTick(t).value, x) == Total(t, x)
  {
    match t.stack.frame.i
    case IMerge(_) => MergeConserves(t, x);
    case IPick =>
      if t.consumed == [] {
        ReturnFacts(t, true);
      } else {
        PickConserves(t, x);
      }
    case ICall => CallConserves(t, x);
    case _ =>
  }

  /** A step that keeps the shape and neither loses nor makes a signal. */
  ghost predicate Keeps(t: Thread, r: Outcome<Thread>) {
    r.Ok? && Shape(r.value) && r.value.raised == t.raised && forall x :: Total(r.value, x) == Total(t, x)
  }

  /** The step leaves the queue alone, and no activation that comes or goes carries a signal. */
  ghost predicate Quiet(t: Thread, n: Thread) {
    && n.produced == t.produced && n.consumed == t.consumed && n.delivered == t.delivered && n.raised == t.raised
    && forall x :: CarriedIn(n.stack, x) == CarriedIn(t.stack, x)
  }

  lemma QuietKeeps(t: Thread, r: Outcome<Thread>)
    requires r.Ok? && Shape(r.value) && Quiet(t, r.value)
    ensures Keeps(t, r)
  {
    forall x ensures Total(r.value, x) == Total(t, x) {
      assert CarriedIn(r.value.stack, x) == CarriedIn(t.stack, x);
    }
  }

  lemma CallEnterKeeps(t: Thread)
    requires Shape(t) && MayAct(t, Tick) && t.stack.frame.Call? && t.stack.frame.c.CEnter?
    ensures Keeps(t, Step(t, Tick))
  {
    NowFacts(t, Call(CBody, t.status != Disabled));
    QuietKeeps(t, Step(t, Tick));
  }

  lemma CallReturnKeeps(t: Thread)
    requires Shape(t) && MayAct(t, Tick) && t.stack.frame.Call? && t.stack.frame.c.CReturn?
    ensures Keeps(t, Step(t, Tick))
  {
    ReturnFacts(t, true);
    QuietKeeps(t, Step(t, Tick));
  }

  /** The running activation waits for one it starts. */
  lemma CallOutKeeps(t: Thread, f: Frame, g: Frame)
    requires Shape(t) && t.stack.Top? && Carried(t.stack.frame) == [] == Carried(f) == Carried(g)
    requires Remembers(f, On(t.stack.below)) && MayRest(f, t.stack.below)
    requires var n := Now(t, f);
             Remembers(g, On(n.stack)) && MayRest(g, n.stack) && !Waits(g) && On(Push(n, g).stack) == On(t.stack)
    requires !t.stack.frame.Drain? && !(t.stack.frame.Handler? && t.stack.frame.h.HMark?)
    ensures Keeps(t, Ok(Push(Now(t, f), g)))
  {
    var n := Now(t, f);
    NowFacts(t, f);
    PushFacts(n, g);
    QuietKeeps(t, Ok(Push(n, g)));
  }

  lemma PollTickKeeps(t: Thread)
    requires Shape(t) && MayAct(t, Tick) && t.stack.frame.Poll?
    ensures Keeps(t, Step(t, Tick))
  {
    if t.status == Enabled {
      ReturnFacts(t, true);
      QuietKeeps(t, Step(t, Tick));
    } else {
      CallOutKeeps(t, Poll(PWait), Drain(IStore));
    }
  }

  lemma DisableTickKeeps(t: Thread)
    requires Shape(t) && MayAct(t, Tick) && t.stack.frame.Disable?
    ensures Keeps(t, Step(t, Tick))
  {
    if t.status == Present {
      CallOutKeeps(t, Disable(DWait), Drain(IStore));
    } else {
      ReturnFacts(t.(status := Disabled), t.status == Enabled);
      ReturnFacts(t, t.status == Enabled);
      QuietKeeps(t, Step(t, Tick));
    }
  }

  lemma OtherTickKeeps(t: Thread)
    requires Shape(t) && MayAct(t, Tick) && !t.stack.frame.Handler? && !t.stack.frame.Drain?
    ensures Keeps(t, Step(t, Tick))
  {
    match t.stack.frame
    case Call(CEnter, _) => CallEnterKeeps(t);
    case Call(CReturn, _) => CallReturnKeeps(t);
    case Poll(_) => PollTickKeeps(t);
    case Disable(_) => DisableTickKeeps(t);
    case _ =>
  }

  /** A new activation starts on top of the thread. */
  lemma PushKeeps(t: Thread, f: Frame)
    requires Shape(t) && Carried(f) == [] && !Waits(f)
    requires Remembers(f, On(t.stack)) && MayRest(f, t.stack) && On(Push(t, f).stack) == On(t.stack)
    ensures Keeps(t, Ok(Push(t, f)))
  {
    PushFacts(t, f);
    QuietKeeps(t, Ok(Push(t, f)));
  }

  lemma EnterScopeKeeps(t: Thread)
    requires Shape(t) && MayAct(t, EnterScope)
    ensures Keeps(t, Step(t, EnterScope))
  {
    var n := Push(t, Scope(SWait, false));
    PushFacts(t, Scope(SWait, false));
    PushFacts(n, Disable(DCas));
    QuietKeeps(t, Ok(Push(n, Disable(DCas))));
  }

  lemma ActKeeps(t: Thread, a: Act)
    requires Shape(t) && MayAct(t, a) && a != Tick && !a.Interrupt? && !a.Fault? && a != Leave
    ensures Keeps(t, Step(t, a))
  {
    match a
    case WeakCasFails => CallOutKeeps(t, Disable(DWait), Drain(IStore));
    case CallGuest => PushKeeps(t, Call(CEnter, false));
    case EnterScope => EnterScopeKeeps(t);
    case PollNow => PushKeeps(t, Poll(PLoad));
    case _ =>
  }

  lemma LeaveKeeps(t: Thread)
    requires Shape(t) && MayAct(t, Leave)
    ensures Keeps(t, Step(t, Leave))
  {
    match t.stack.frame
    case Call(_, prev) =>
      if prev {
        NowFacts(t, Call(CReturn, prev));
        QuietKeeps(t, Step(t, Leave));
      } else {
        CallOutKeeps(t, Call(CWait, prev), Disable(DCas));
      }
    case Scope(_, prev) =>
      ReturnFacts(t, true);
      ReturnFacts(t.(status := Enabled), true);
      QuietKeeps(t, Step(t, Leave));
    case _ =>
  }

  lemma InterruptKeeps(t: Thread, sig: Signal)
    requires Shape(t)
    ensures var n := Step(t, Interrupt(sig)).value;
            && Shape(n) && n.raised == t.raised + [sig]
            && forall x :: Total(n, x) == Total(t, x) + multiset([sig])[x]
  {
    PushFacts(t, Handler(sig, HEnable, false));
  }

  /** It keeps status, activations and queue in step if and only if it found pending signals enabled. */
  lemma FaultKeepsInvExactly(t: Thread, sig: Signal)
    requires Inv(t)
    ensures Inv(FaultRecovered(t, sig)) <==> t.status != Disabled
  {
    var n := FaultRecovered(t, sig);
    assert multiset(n.raised) == multiset(t.raised) + multiset([sig]);
    assert multiset(n.produced) == multiset(t.produced) + multiset([sig]);
    forall x ensures Total(n, x) == Total(t, x) + multiset([sig])[x] {
    }
  }

  /** No step fails a CHECK, whatever it interrupts. */
  lemma StepKeepsInv(t: Thread, a: Act)
    requires Inv(t) && MayAct(t, a)
    ensures Step(t, a).Ok? && Inv(Step(t, a).value)
  {
    match a
    case Interrupt(sig) =>
      InterruptKeeps(t, sig);
      assert multiset(t.raised + [sig]) == multiset(t.raised) + multiset([sig]);
    case Tick =>
      if t.stack.frame.Handler? {
        HandlerTickKeepsShape(t);
        forall x {
          HandlerTickConserves(t, x);
        }
        assert Step(t, Tick).value.raised == t.raised by {
          HandlerTickConserves(t, Signal(0, 0));
        }
      } else if t.stack.frame.Drain? {
        DrainTickKeepsShape(t);
        forall x {
          DrainTickConserves(t, x);
        }
        assert Step(t, Tick).value.raised == t.raised by {
          DrainTickConserves(t, Signal(0, 0));
        }
      } else {
        OtherTickKeeps(t);
      }
    case Fault(sig) => FaultKeepsInvExactly(t, sig);
    case Leave => LeaveKeeps(t);
    case _ => ActKeeps(t, a);
  }

  // Whole runs.

  ghost predicate LegalRun(t: Thread, acts: seq<Act>)
    decreases |acts|
  {
    acts == [] || (MayAct(t, acts[0]) && (Step(t, acts[0]).Ok? ==> LegalRun(Step(t, acts[0]).value, acts[1..])))
  }

  function Run(t: Thread, acts: seq<Act>): Outcome<Thread>
    requires LegalRun(t, acts)
    decreases |acts|
  {
    if acts == [] then Ok(t)
    else match Step(t, acts[0])
         case CheckFailed => CheckFailed
         case Ok(n) => Run(n, acts[1..])
  }

  lemma {:induction false} RunKeepsInv(t: Thread, acts: seq<Act>)
    requires Inv(t) && LegalRun(t, acts)
    ensures Run(t, acts).Ok? && Inv(Run(t, acts).value)
    decreases |acts|
  {
    if acts != [] {
      StepKeepsInv(t, acts[0]);
      RunKeepsInv(Step(t, acts[0]).value, acts[1..]);
    }
  }

  /**
   Over every run with any nesting of handlers: no CHECK fails, and whenever the thread is back in host
   code every signal raised so far has been delivered, as often as it was raised.
   */
  lemma AllDeliveredWhenBack(acts: seq<Act>)
    requires LegalRun(ATTACHED, acts)
    ensures Run(ATTACHED, acts).Ok?
    ensures var t := Run(ATTACHED, acts).value;
            t.stack == Bottom ==>
              && t.status == Disabled && t.produced == [] && t.consumed == []
              && multiset(t.delivered) == multiset(t.raised)
  {
    RunKeepsInv(ATTACHED, acts);
    var t := Run(ATTACHED, acts).value;
    if t.stack == Bottom {
      assert forall x :: multiset(t.raised)[x] == Total(t, x) == multiset(t.delivered)[x];
    }
  }

  /** At any moment, with distinct signals, none has been delivered twice or delivered and kept. */
  lemma NeverTwice(acts: seq<Act>, x: Signal)
    requires LegalRun(ATTACHED, acts) && Run(ATTACHED, acts).Ok?
    requires multiset(Run(ATTACHED, acts).value.raised)[x] <= 1
    ensures var t := Run(ATTACHED, acts).value;
            && multiset(t.delivered)[x] <= 1
            && (x in t.delivered ==> x !in t.produced && x !in t.consumed)
  {
    RunKeepsInv(ATTACHED, acts);
    var t := Run(ATTACHED, acts).value;
    assert multiset(t.raised)[x] == Total(t, x);
    assert x in t.delivered ==> x in multiset(t.delivered);
    assert x in t.produced ==> x in multiset(t.produced);
    assert x in t.consumed ==> x in multiset(t.consumed);
  }

  // Where activations can be when others run above them.

  /** Between the two halves of SetSignalFromHost, or inside a drain other than at a guest call. */
  predicate Busy(f: Frame) {
    (f.Handler? && (f.h.HEnqueue? || f.h.HMark?)) || (f.Drain? && !f.i.IWait?)
  }

  ghost predicate NoneBusy(s: Stack) {
    s.Top? ==> !Busy(s.frame) && NoneBusy(s.below)
  }

  /** The top waits for a call, runs a body, or has pending signals disabled. */
  ghost predicate Settled(s: Stack) {
    s.Top? ==> Waits(s.frame) || IsBody(s) || !On(s)
  }

  lemma {:induction false} SettledMeansNoneBusy(s: Stack)
    requires StackOk(s) && Settled(s)
    ensures NoneBusy(s)
  {
    if s.Top? {
      assert StackOk(s.below) && MayRest(s.frame, s.below) && Remembers(s.frame, On(s.below));
      SettledMeansNoneBusy(s.below);
    }
  }

  /** The non-reentrant dequeue is never re-entered: below a drain, no activation is inside one. */
  lemma DequeueNotReentered(t: Thread)
    requires Inv(t) && t.stack.Top? && t.stack.frame.Drain?
    ensures NoneBusy(t.stack.below)
  {
    SettledMeansNoneBusy(t.stack.below);
  }

  /** A drain is suspended in a guest handler it runs. */
  ghost predicate Suspended(s: Stack) {
    s.Top? && (s.frame == Drain(IWait) || Suspended(s.below))
  }

  lemma {:induction false} NotBusyNotWatched(s: Stack)
    requires NoneBusy(s)
    ensures !Watched(s) && (Draining(s) ==> Suspended(s))
  {
    if s.Top? {
      NotBusyNotWatched(s.below);
    }
  }

  /**
   In every reachable state, unless an activation is between enqueueing and marking or inside a drain, a
   produced signal shows in the status; and unless a drain is suspended in a guest handler, nothing else is
   queued.
   */
  lemma QueuedMeansPresent(acts: seq<Act>)
    requires LegalRun(ATTACHED, acts)
    ensures Run(ATTACHED, acts).Ok?
    ensures var t := Run(ATTACHED, acts).value;
            NoneBusy(t.stack) ==>
              (t.produced != [] ==> t.status == Present) && (t.consumed != [] ==> Suspended(t.stack))
  {
    RunKeepsInv(ATTACHED, acts);
    var t := Run(ATTACHED, acts).value;
    if NoneBusy(t.stack) {
      NotBusyNotWatched(t.stack);
    }
  }

  /**
   Whenever ProcessAndDisablePendingSignals is about to disable, nothing is produced, so the queue is empty if
   and only if nothing is left over from a dequeue; and something is left over only while a drain is suspended
   in a guest handler.
   */
  lemma DisablesDrainedExactly(acts: seq<Act>)
    requires LegalRun(ATTACHED, acts)
    ensures Run(ATTACHED, acts).Ok?
    ensures var t := Run(ATTACHED, acts).value;
            t.stack.Top? && t.stack.frame == Disable(DCas) && t.status == Enabled ==>
              && t.produced == []
              && (t.consumed != [] ==> Suspended(t.stack))
  {
    RunKeepsInv(ATTACHED, acts);
    var t := Run(ATTACHED, acts).value;
    if t.stack.Top? && t.stack.frame == Disable(DCas) && t.status == Enabled {
      SettledMeansNoneBusy(t.stack.below);
      NotBusyNotWatched(t.stack);
    }
  }

  /**
   Over every run, a poll comes back exactly when it finds no signal present: then nothing is produced, and something
   is left over only while a drain is suspended in a guest handler. After a kick it drains first.
   */
  lemma PollReturnsDrained(acts: seq<Act>)
    requires LegalRun(ATTACHED, acts) && Run(ATTACHED, acts).Ok?
    requires var t := Run(ATTACHED, acts).value; t.stack.Top? && t.stack.frame == Poll(PLoad)
    ensures var t := Run(ATTACHED, acts).value;
            && Step(t, Tick).Ok? && Step(t, Kick).Ok?
            && (Step(t, Tick).value.stack == t.stack.below <==> t.status != Present)
            && (Step(t, Tick).value.stack == t.stack.below ==>
                  t.produced == [] && (t.consumed != [] ==> Suspended(t.stack)))
            && Step(Step(t, Kick).value, Tick) ==
               Ok(t.(status := Present, stack := Top(Drain(IStore), Top(Poll(PWait), t.stack.below))))
  {
    RunKeepsInv(ATTACHED, acts);
    var t := Run(ATTACHED, acts).value;
    StepKeepsInv(t, Tick);
    SettledMeansNoneBusy(t.stack.below);
    NotBusyNotWatched(t.stack);
    ReturnFacts(t, true);
  }

  // A handler and what it interrupted.

  /** The activation directly above `base` is a handler, with anything above it. */
  ghost predicate HandlerOver(s: Stack, base: Stack) {
    s.Top? && if s.below == base then s.frame.Handler? else HandlerOver(s.below, base)
  }

  ghost function Depth(s: Stack): nat {
    if s.Bottom? then 0 else 1 + Depth(s.below)
  }

  lemma {:induction false} HandlerOverIsDeeper(s: Stack, base: Stack)
    requires HandlerOver(s, base)
    ensures Depth(base) < Depth(s)
  {
    if s.below != base {
      HandlerOverIsDeeper(s.below, base);
    }
  }

  /** How one step may change the stack; activations that stay keep their kind. */
  ghost predicate StackStep(s: Stack, n: Stack) {
    || n == s
    || (n.Top? && n.below == s)
    || (n.Top? && n.below.Top? && n.below.below == s)
    || (s.Top? && n.Top? && n.below == s.below && s.frame.Handler? == n.frame.Handler?)
    || (s.Top? && n.Top? && n.below.Top? && n.below.below == s.below && s.frame.Handler? == n.below.frame.Handler?)
    || (s.Top? && n == s.below && (s.frame.Handler? || n.Bottom?))
    || (s.Top? && !s.frame.Handler? && s.below.Top? && n.Top? && n.below == s.below.below
        && s.below.frame.Handler? == n.frame.Handler?)
  }

  lemma StepIsStackStep(t: Thread, a: Act)
    requires Inv(t) && MayAct(t, a)
    ensures Step(t, a).Ok? && StackStep(t.stack, Step(t, a).value.stack)
  {
    StepKeepsInv(t, a);
    if a == Tick {
      TickIsStackStep(t);
    }
  }

  lemma ReturnIsStackStep(t: Thread, result: bool)
    requires t.stack.Top? && Return(t, result).Ok? && StackOk(t.stack)
    ensures StackStep(t.stack, Return(t, result).value.stack)
  {
  }

  lemma TickIsStackStep(t: Thread)
    requires Inv(t) && MayAct(t, Tick) && Step(t, Tick).Ok?
    ensures StackStep(t.stack, Step(t, Tick).value.stack)
  {
    if Return(t, true).Ok? {
      ReturnIsStackStep(t, true);
    }
    if Return(t, false).Ok? {
      ReturnIsStackStep(t, false);
    }
    var off := t.(status := Disabled);
    if Return(off, true).Ok? {
      ReturnIsStackStep(off, true);
    }
  }

  lemma StackStepKeepsBase(s: Stack, n: Stack, base: Stack)
    requires StackStep(s, n) && HandlerOver(s, base)
    ensures n == base || HandlerOver(n, base)
  {
    HandlerOverIsDeeper(s, base);
    assert HandlerOver(s.below, base) || s.below == base;
    if s.below != base {
      HandlerOverIsDeeper(s.below, base);
    }
  }

  /** One step keeps the handler in place or ends it, and ending it restores the interrupted stack. */
  lemma StepKeepsBase(t: Thread, a: Act, base: Stack)
    requires Inv(t) && MayAct(t, a) && HandlerOver(t.stack, base)
    ensures Step(t, a).Ok?
    ensures Step(t, a).value.stack == base || HandlerOver(Step(t, a).value.stack, base)
  {
    StepIsStackStep(t, a);
    StackStepKeepsBase(t.stack, Step(t, a).value.stack, base);
  }

  /** No state of the run before its last has the interrupted stack on its own. */
  ghost predicate Away(t: Thread, acts: seq<Act>, base: Stack)
    decreases |acts|
  {
    acts == [] ||
    (t.stack != base && MayAct(t, acts[0]) && (Step(t, acts[0]).Ok? ==> Away(Step(t, acts[0]).value, acts[1..], base)))
  }

  lemma {:induction false} RunKeepsBase(t: Thread, acts: seq<Act>, base: Stack)
    requires Inv(t) && LegalRun(t, acts) && HandlerOver(t.stack, base) && Away(t, acts, base)
    ensures Run(t, acts).Ok?
    ensures Run(t, acts).value.stack == base || HandlerOver(Run(t, acts).value.stack, base)
    decreases |acts|
  {
    if acts != [] {
      StepKeepsInv(t, acts[0]);
      StepKeepsBase(t, acts[0], base);
      var n := Step(t, acts[0]).value;
      if n.stack != base {
        RunKeepsBase(n, acts[1..], base);
      }
    }
  }

  /**
   A handler that interrupts the thread anywhere, and is itself interrupted anywhere, comes back to
   exactly the activations it found, with pending signals disabled if and only if it found them so.
   */
  lemma HandlerLeavesAsFound(t: Thread, sig: Signal, acts: seq<Act>)
    requires Inv(t)
    requires var began := Step(t, Interrupt(sig)).value; LegalRun(began, acts) && Away(began, acts, t.stack)
    ensures var end := Run(Step(t, Interrupt(sig)).value, acts);
            && end.Ok?
            && (end.value.stack == t.stack || HandlerOver(end.value.stack, t.stack))
            && (end.value.stack == t.stack ==> (end.value.status == Disabled <==> t.status == Disabled))
  {
    var began := Step(t, Interrupt(sig)).value;
    StepKeepsInv(t, Interrupt(sig));
    RunKeepsInv(began, acts);
    RunKeepsBase(began, acts, t.stack);
  }

  // A reachable state where disabling leaves a queued signal behind.

  lemma {:induction false} RunOneMore(t: Thread, acts: seq<Act>, a: Act)
    requires LegalRun(t, acts) && Run(t, acts).Ok? && MayAct(Run(t, acts).value, a)
    ensures LegalRun(t, acts + [a]) && Run(t, acts + [a]) == Step(Run(t, acts).value, a)
    decreases |acts|
  {
    if acts == [] {
      assert [] + [a] == [a] && [a][1..] == [];
      assert Step(t, a).Ok? ==> Run(Step(t, a).value, []) == Step(t, a);
      assert Run(t, [a]) == match Step(t, a) case CheckFailed => CheckFailed case Ok(n) => Run(n, []);
    } else {
      RunOneMore(Step(t, acts[0]).value, acts[1..], a);
      assert (acts + [a])[1..] == acts[1..] + [a];
    }
  }

  lemma Extend(t: Thread, acts: seq<Act>, u: Thread, a: Act, v: Thread) returns (more: seq<Act>)
    requires LegalRun(t, acts) && Run(t, acts) == Ok(u) && MayAct(u, a) && Step(u, a) == Ok(v)
    ensures LegalRun(t, more) && Run(t, more) == Ok(v)
  {
    RunOneMore(t, acts, a);
    more := acts + [a];
  }

  /** A host signal in guest code, handled while pending signals are enabled: it is queued and marked. */
  lemma InterruptGuest(acts: seq<Act>, u: Thread, sig: Signal) returns (more: seq<Act>)
    requires LegalRun(ATTACHED, acts) && Run(ATTACHED, acts) == Ok(u)
    requires IsBody(u.stack) && u.stack.frame.Call? && u.status != Disabled
    ensures LegalRun(ATTACHED, more)
    ensures Run(ATTACHED, more) ==
            Ok(u.(status := Present, produced := [sig] + u.produced, raised := u.raised + [sig]))
  {
    var t1 := Push(u.(raised := u.raised + [sig]), Handler(sig, HEnable, false));
    more := Extend(ATTACHED, acts, u, Interrupt(sig), t1);
    var t2 := Now(t1, Handler(sig, HEnqueue, true));
    more := Extend(ATTACHED, more, t1, Tick, t2);
    var t3 := Now(t2.(produced := [sig] + u.produced), Handler(sig, HMark, true));
    more := Extend(ATTACHED, more, t2, Tick, t3);
    var t4 := Now(t3.(status := Present), Handler(sig, HReturn, true));
    more := Extend(ATTACHED, more, t3, Tick, t4);
    more := Extend(ATTACHED, more, t4, Tick, t4.(stack := u.stack));
  }

  /** More host signals in guest code, oldest first in arrival and last in the list. */
  lemma {:induction false} AllArrive(acts: seq<Act>, u: Thread, l: seq<Signal>) returns (more: seq<Act>)
    requires LegalRun(ATTACHED, acts) && Run(ATTACHED, acts) == Ok(u)
    requires IsBody(u.stack) && u.stack.frame.Call? && u.status == Present
    ensures LegalRun(ATTACHED, more)
    ensures Run(ATTACHED, more) == Ok(u.(produced := l + u.produced, raised := u.raised + Reverse(l)))
    decreases |l|
  {
    if l == [] {
      more := acts;
      assert [] + u.produced == u.produced && u.raised + Reverse(l) == u.raised;
    } else {
      more := AllArrive(acts, u, l[1..]);
      var v := u.(produced := l[1..] + u.produced, raised := u.raised + Reverse(l[1..]));
      more := InterruptGuest(more, v, l[0]);
      assert [l[0]] + (l[1..] + u.produced) == l + u.produced;
      assert Reverse(l) == Reverse(l[1..]) + [l[0]];
      assert u.raised + Reverse(l[1..]) + [l[0]] == u.raised + Reverse(l);
    }
  }

  /**
   A smallest signal x and then any others arrive in guest code; the handler of x makes a system call. Its
   disabler finds the status Enabled and disables, with all the others still queued: any list can be left.
   */
  lemma AnythingMayBeLeft(l: seq<Signal>, x: Signal) returns (acts: seq<Act>)
    requires forall s | s in l :: x.signo <= s.signo
    ensures LegalRun(ATTACHED, acts) && Run(ATTACHED, acts).Ok?
    ensures LeavesQueued(Run(ATTACHED, acts).value, l)
  {
    var t1 := Push(ATTACHED, Call(CEnter, false));
    acts := Extend(ATTACHED, [], ATTACHED, CallGuest, t1);
    var guest := Top(Call(CBody, false), Bottom);
    var t2 := Thread(Enabled, [], [], guest, [], []);
    acts := Extend(ATTACHED, acts, t1, Tick, t2);
    acts := InterruptGuest(acts, t2, x);
    assert [x] + [] == [x] && [] + [x] == [x];
    var t3 := Thread(Present, [x], [], guest, [x], []);
    acts := AllArrive(acts, t3, l);
    acts := FirstPicked(acts, t3.(produced := l + [x], raised := [x] + Reverse(l)), l, x);
    acts := OthersLeftInQueue(acts, t3.stack, [x] + Reverse(l), l, x);
  }

  /** About to disable, with exactly l left over, which stays. */
  ghost predicate LeavesQueued(t: Thread, l: seq<Signal>) {
    && t.stack.Top? && t.stack.frame == Disable(DCas) && t.status == Enabled && Suspended(t.stack)
    && t.consumed == l
    && Step(t, Tick).Ok? && Step(t, Tick).value.status == Disabled && Step(t, Tick).value.consumed == l
  }

  lemma OldestSmallestIsBest(l: seq<Signal>, x: Signal)
    requires forall s | s in l :: x.signo <= s.signo
    ensures Best(l + [x]) == |l| && Without(l + [x], |l|) == l
  {
    var w := l + [x];
    BestFromIsLastMin(w, 0, 1);
    var k := Best(w);
    assert w[|l|] == x && forall i | 0 <= i < |l| :: w[i] == l[i] && l[i] in l;
  }

  /** Guest code polls; the drain takes everything. */
  lemma AllTaken(acts: seq<Act>, t: Thread) returns (more: seq<Act>)
    requires LegalRun(ATTACHED, acts) && Run(ATTACHED, acts) == Ok(t)
    requires t == Thread(Present, t.produced, [], Top(Call(CBody, false), Bottom), t.raised, [])
    ensures LegalRun(ATTACHED, more)
    ensures Run(ATTACHED, more) ==
            Ok(Thread(Enabled, [], t.produced, Top(Drain(IPick), Top(Poll(PWait), t.stack)), t.raised, []))
  {
    more := Extend(ATTACHED, acts, t, PollNow, Push(t, Poll(PLoad)));
    var below := Top(Poll(PWait), t.stack);
    var d1 := t.(stack := Top(Drain(IStore), below));
    more := Extend(ATTACHED, more, Push(t, Poll(PLoad)), Tick, d1);
    var d2 := d1.(status := Enabled, stack := Top(Drain(ITake), below));
    more := Extend(ATTACHED, more, d1, Tick, d2);
    var d3 := d2.(produced := [], stack := Top(Drain(IMerge(t.produced)), below));
    more := Extend(ATTACHED, more, d2, Tick, d3);
    assert t.produced + [] == t.produced;
    more := Extend(ATTACHED, more, d3, Tick, d3.(consumed := t.produced, stack := Top(Drain(IPick), below)));
  }

  /** It picks x. */
  lemma FirstPicked(acts: seq<Act>, t: Thread, l: seq<Signal>, x: Signal) returns (more: seq<Act>)
    requires LegalRun(ATTACHED, acts) && Run(ATTACHED, acts) == Ok(t) && forall s | s in l :: x.signo <= s.signo
    requires t == Thread(Present, l + [x], [], Top(Call(CBody, false), Bottom), t.raised, [])
    ensures LegalRun(ATTACHED, more)
    ensures Run(ATTACHED, more) ==
            Ok(Thread(Enabled, [], l, Top(Drain(ICall), Top(Poll(PWait), t.stack)), t.raised, [x]))
  {
    more := AllTaken(acts, t);
    var below := Top(Poll(PWait), t.stack);
    var d4 := Thread(Enabled, [], l + [x], Top(Drain(IPick), below), t.raised, []);
    OldestSmallestIsBest(l, x);
    assert [] + [x] == [x];
    more := Extend(ATTACHED, more, d4, Tick, d4.(consumed := l, delivered := [x], stack := Top(Drain(ICall), below)));
  }

  lemma OthersLeftInQueue(acts: seq<Act>, guest: Stack, raised: seq<Signal>, l: seq<Signal>, x: Signal)
    returns (more: seq<Act>)
    requires guest == Top(Call(CBody, false), Bottom) && LegalRun(ATTACHED, acts)
    requires Run(ATTACHED, acts) == Ok(Thread(Enabled, [], l, Top(Drain(ICall), Top(Poll(PWait), guest)), raised, [x]))
    ensures LegalRun(ATTACHED, more) && Run(ATTACHED, more).Ok?
    ensures LeavesQueued(Run(ATTACHED, more).value, l)
  {
    var below := Top(Drain(IWait), Top(Poll(PWait), guest));
    var d5 := Thread(Enabled, [], l, Top(Drain(ICall), Top(Poll(PWait), guest)), raised, [x]);
    var d6 := d5.(stack := Top(Call(CEnter, false), below));
    more := Extend(ATTACHED, acts, d5, Tick, d6);
    var d7 := d6.(stack := Top(Call(CBody, true), below));
    more := Extend(ATTACHED, more, d6, Tick, d7);
    var scope := Top(Scope(SWait, false), d7.stack);
    var d8 := d7.(stack := Top(Disable(DCas), scope));
    more := Extend(ATTACHED, more, d7, EnterScope, d8);
    assert Suspended(below) && Suspended(d7.stack) && Suspended(scope) && Suspended(d8.stack);
  }

  // The fault handler that only redirects to recovery code.

  /**
   Found disabled, it leaves pending signals enabled inside a scope that disabled them. The CHECK at the end of that
   scope then fails if and only if the scope is the one that is to enable them again.
   */
  lemma FaultInScopeFailsExactly(t: Thread, sig: Signal)
    requires Inv(t) && IsBody(t.stack) && t.stack.frame.Scope?
    ensures Step(t, Leave).Ok?
    ensures Step(FaultRecovered(t, sig), Leave).CheckFailed? <==> t.stack.frame.prev
  {
    StepKeepsInv(t, Leave);
    ReturnFacts(FaultRecovered(t, sig), true);
  }

  function HandlerTicks(t: Thread, n: nat): Outcome<Thread>
    decreases n
  {
    if n == 0 then Ok(t)
    else if t.stack.Top? && t.stack.frame.Handler? && HandlerTick(t).Ok? then HandlerTicks(HandlerTick(t).value, n - 1)
    else CheckFailed
  }

  /** Found enabled, as in generated code, it does what the signal handler does there. */
  lemma FaultIsHandlerWhenEnabled(t: Thread, sig: Signal)
    requires t.status != Disabled
    ensures HandlerTicks(Step(t, Interrupt(sig)).value, 4) ==
            Return(Push(FaultRecovered(t, sig), Handler(sig, HReturn, true)), true)
  {
    var t1 := Step(t, Interrupt(sig)).value;
    var t2, t3 := HandlerTick(t1).value, HandlerTick(HandlerTick(t1).value).value;
    var t4 := HandlerTick(t3).value;
    assert t4 == Push(FaultRecovered(t, sig), Handler(sig, HReturn, true));
    assert HandlerTicks(t4, 1) ==
           match HandlerTick(t4) case Ok(n) => HandlerTicks(n, 0) case CheckFailed => CheckFailed;
    assert HandlerTicks(t3, 2) == HandlerTicks(t4, 1) && HandlerTicks(t2, 3) == HandlerTicks(t3, 2);
  }
}
