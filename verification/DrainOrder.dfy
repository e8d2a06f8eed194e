/**
 In which order a thread's drains deliver: the queue accesses of a run of `PendingSignals`, taken out of their
 activations, are a run of the lock-free queue, and so of its reference, a stable priority queue.
 */
module DrainOrder {
  import P = PendingSignals
  import Q = SignalQueueSpec

  /** How far the dequeue in progress is, wherever on the stack it is. */
  function PhaseOf(s: P.Stack): Q.Phase {
    match s
    case Bottom => Q.Resting
    case Top(Drain(IMerge(taken)), _) => Q.Taken(taken)
    case Top(Drain(IPick), _) => Q.Merged
    case Top(_, below) => PhaseOf(below)
  }

  function QueueOf(t: P.Thread): Q.Queue {
    Q.Queue(t.produced, t.consumed, PhaseOf(t.stack))
  }

  /** The access to the queue that an activation is about to make. */
  function Access(f: P.Frame): seq<Q.Op> {
    match f
    case Handler(sig, HEnqueue, _) => [Q.Enqueue(sig)]
    case Drain(ITake) => [Q.Take]
    case Drain(IMerge(_)) => [Q.Merge]
    case Drain(IPick) => [Q.Pick]
    case _ => []
  }

  function QueueOps(t: P.Thread, a: P.Act): (ops: seq<Q.Op>)
    requires P.MayAct(t, a)
    ensures |ops| <= 1
  {
    match a
    case Fault(sig) => [Q.Enqueue(sig)]
    case Tick => Access(t.stack.frame)
    case _ => []
  }

  lemma {:induction false} NoneBusyRests(s: P.Stack)
    requires P.NoneBusy(s)
    ensures PhaseOf(s) == Q.Resting
  {
    if s.Top? {
      NoneBusyRests(s.below);
    }
  }

  /** The top two activations of a stack, where they are not inside a dequeue, do not matter. */
  lemma PhaseBelow(s: P.Stack)
    ensures s.Top? && !(s.frame.Drain? && (s.frame.i.IMerge? || s.frame.i.IPick?)) ==> PhaseOf(s) == PhaseOf(s.below)
    ensures s.Top? && s.below.Top? && s.below.frame.Drain? && s.below.frame.i.IWait? ==>
              PhaseOf(s.below) == PhaseOf(s.below.below)
    ensures s.Top? && s.below.Top? && !s.below.frame.Drain? ==> PhaseOf(s.below) == PhaseOf(s.below.below)
  {
  }

  lemma ReturnKeepsPhase(t: P.Thread, result: bool)
    requires t.stack.Top? && P.Return(t, result).Ok?
    ensures var n := P.Return(t, result).value; PhaseOf(n.stack) == PhaseOf(t.stack.below) && n == t.(stack := n.stack)
  {
  }

  /** What a step does to queue and deliveries is what its access to the queue does. */
  ghost predicate Follows(t: P.Thread, ops: seq<Q.Op>, n: P.Thread) {
    if ops == [] then QueueOf(n) == QueueOf(t) && n.delivered == t.delivered
    else
      && Q.Enabled(QueueOf(t), ops[0])
      && var (q, out) := Q.Step(QueueOf(t), ops[0]);
         QueueOf(n) == q && n.delivered == if out.Some? then t.delivered + [out.value] else t.delivered
  }

  function Somes(results: seq<Q.Option<Q.Signal>>): seq<Q.Signal> {
    if results == [] then []
    else (if results[0].Some? then [results[0].value] else []) + Somes(results[1..])
  }

  lemma DrainFollows(t: P.Thread)
    requires P.Inv(t) && P.MayAct(t, P.Tick) && t.stack.frame.Drain?
    ensures P.Step(t, P.Tick).Ok? && Follows(t, Access(t.stack.frame), P.Step(t, P.Tick).value)
  {
    P.StepKeepsInv(t, P.Tick);
    P.DequeueNotReentered(t);
    NoneBusyRests(t.stack.below);
    PhaseBelow(t.stack);
    PhaseBelow(P.Step(t, P.Tick).value.stack);
    if P.Return(t, true).Ok? {
      ReturnKeepsPhase(t, true);
    }
  }

  lemma HandlerFollows(t: P.Thread)
    requires P.MayAct(t, P.Tick) && t.stack.frame.Handler? && P.Step(t, P.Tick).Ok?
    ensures Follows(t, Access(t.stack.frame), P.Step(t, P.Tick).value)
  {
    PhaseBelow(t.stack);
    PhaseBelow(P.Step(t, P.Tick).value.stack);
    if P.Return(t, true).Ok? {
      ReturnKeepsPhase(t, true);
    }
  }

  lemma DisableFollows(t: P.Thread)
    requires P.MayAct(t, P.Tick) && t.stack.frame.Disable? && P.Step(t, P.Tick).Ok?
    ensures Follows(t, Access(t.stack.frame), P.Step(t, P.Tick).value)
  {
    PhaseBelow(t.stack);
    PhaseBelow(P.Step(t, P.Tick).value.stack);
    match t.status
    case Disabled => ReturnKeepsPhase(t, false);
    case Enabled => ReturnKeepsPhase(t.(status := P.Disabled), true);
    case Present =>
  }

  lemma CallerFollows(t: P.Thread)
    requires P.MayAct(t, P.Tick) && (t.stack.frame.Call? || t.stack.frame.Poll?) && P.Step(t, P.Tick).Ok?
    ensures Follows(t, Access(t.stack.frame), P.Step(t, P.Tick).value)
  {
    PhaseBelow(t.stack);
    PhaseBelow(P.Step(t, P.Tick).value.stack);
    if P.Return(t, true).Ok? {
      ReturnKeepsPhase(t, true);
    }
  }

  lemma LeaveFollows(t: P.Thread)
    requires P.MayAct(t, P.Leave) && P.Step(t, P.Leave).Ok?
    ensures Follows(t, [], P.Step(t, P.Leave).value)
  {
    PhaseBelow(t.stack);
    PhaseBelow(P.Step(t, P.Leave).value.stack);
    if t.stack.frame.Scope? {
      ReturnKeepsPhase(if t.stack.frame.prev then t.(status := P.Enabled) else t, true);
    }
  }

  lemma StepFollows(t: P.Thread, a: P.Act)
    requires P.Inv(t) && P.MayAct(t, a)
    ensures P.Step(t, a).Ok? && Follows(t, QueueOps(t, a), P.Step(t, a).value)
  {
    P.StepKeepsInv(t, a);
    if a == P.Leave {
      LeaveFollows(t);
    } else if a == P.Tick {
      match t.stack.frame
      case Drain(_) => DrainFollows(t);
      case Handler(_, _, _) => HandlerFollows(t);
      case Disable(_) => DisableFollows(t);
      case _ => CallerFollows(t);
    } else {
      PhaseBelow(t.stack);
      PhaseBelow(P.Step(t, a).value.stack);
    }
  }

  /** All accesses of a run, in order. */
  ghost function RunOps(t: P.Thread, acts: seq<P.Act>): seq<Q.Op>
    requires P.LegalRun(t, acts)
    decreases |acts|
  {
    if acts == [] then []
    else QueueOps(t, acts[0]) + if P.Step(t, acts[0]).Ok? then RunOps(P.Step(t, acts[0]).value, acts[1..]) else []
  }

  /** One access in front of a run of the queue. */
  lemma AccessThenRun(q: Q.Queue, op: Q.Op, rest: seq<Q.Op>)
    requires Q.Enabled(q, op) && Q.LegalRun(Q.Step(q, op).0, rest)
    ensures Q.LegalRun(q, [op] + rest)
    ensures var (n, out) := Q.Step(q, op);
            && Q.Run(q, [op] + rest).0 == Q.Run(n, rest).0
            && Somes(Q.Run(q, [op] + rest).1) == (if out.Some? then [out.value] else []) + Somes(Q.Run(n, rest).1)
  {
    assert ([op] + rest)[1..] == rest;
    var (n, out) := Q.Step(q, op);
    var results := Q.Run(n, rest).1;
    if op.Pick? {
      assert ([out] + results)[1..] == results;
    } else {
      assert [] + results == results;
    }
  }

  /** The run of the queue from t ends as the thread does. */
  ghost predicate EndsAs(t: P.Thread, ops: seq<Q.Op>, n: P.Thread) {
    && Q.LegalRun(QueueOf(t), ops)
    && var (q, results) := Q.Run(QueueOf(t), ops); QueueOf(n) == q && n.delivered == t.delivered + Somes(results)
  }

  lemma StepThenRun(t: P.Thread, ops: seq<Q.Op>, n: P.Thread, rest: seq<Q.Op>, last: P.Thread)
    requires |ops| <= 1 && Follows(t, ops, n) && EndsAs(n, rest, last)
    ensures EndsAs(t, ops + rest, last)
  {
    if ops == [] {
      assert ops + rest == rest;
    } else {
      assert ops == [ops[0]];
      AccessThenRun(QueueOf(t), ops[0], rest);
    }
  }

  lemma {:induction false} RunFollows(t: P.Thread, acts: seq<P.Act>)
    requires P.Inv(t) && P.LegalRun(t, acts)
    ensures P.Run(t, acts).Ok? && EndsAs(t, RunOps(t, acts), P.Run(t, acts).value)
    decreases |acts|
  {
    if acts != [] {
      StepFollows(t, acts[0]);
      P.StepKeepsInv(t, acts[0]);
      var n := P.Step(t, acts[0]).value;
      RunFollows(n, acts[1..]);
      StepThenRun(t, QueueOps(t, acts[0]), n, RunOps(n, acts[1..]), P.Run(n, acts[1..]).value);
    }
  }

  /**
   Over every run, with any nesting of handlers and of drains: the signals delivered so far are, in this order, what
   a stable priority queue gives for the same enqueues and dequeues, and the lists hold what it still holds.
   */
  lemma DeliversInPriorityOrder(acts: seq<P.Act>)
    requires P.LegalRun(P.ATTACHED, acts)
    ensures P.Run(P.ATTACHED, acts).Ok?
    ensures var t := P.Run(P.ATTACHED, acts).value;
            var (line, results) := Q.RunLine(Q.Line([], []), RunOps(P.ATTACHED, acts));
            t.delivered == Somes(results) && Q.Abstract(QueueOf(t)) == line
  {
    RunFollows(P.ATTACHED, acts);
    assert Q.Abstract(Q.EMPTY) == Q.Line([], []);
    Q.QueueRefinesStablePriority(Q.EMPTY, RunOps(P.ATTACHED, acts));
  }

  /**
   Over every run: a drain that picks takes from the collected signals, newest first, one with the smallest number,
   and the oldest of those; it delivers it and enters the guest's handler next. The others stay as they were.
   */
  lemma PicksSmallestThenOldest(acts: seq<P.Act>)
    requires P.LegalRun(P.ATTACHED, acts) && P.Run(P.ATTACHED, acts).Ok?
    requires var t := P.Run(P.ATTACHED, acts).value;
             t.stack.Top? && t.stack.frame == P.Drain(P.IPick) && t.consumed != []
    ensures var t := P.Run(P.ATTACHED, acts).value;
            && P.Step(t, P.Tick).Ok?
            && var c, n := t.consumed, P.Step(t, P.Tick).value;
               exists k | 0 <= k < |c| ::
                 && n.delivered == t.delivered + [c[k]] && n.consumed == c[..k] + c[k + 1..]
                 && (forall i | 0 <= i < |c| :: c[k].signo <= c[i].signo)
                 && (forall i | k < i < |c| :: c[k].signo < c[i].signo)
                 && P.Step(n, P.Tick) ==
                    P.Ok(n.(stack := P.Top(P.Call(P.CEnter, false), P.Top(P.Drain(P.IWait), t.stack.below))))
  {
    var t := P.Run(P.ATTACHED, acts).value;
    var k := Q.Best(t.consumed);
    Q.BestFromIsLastMin(t.consumed, 0, 1);
    assert P.Step(t, P.Tick).value.delivered == t.delivered + [t.consumed[k]];
  }
}
