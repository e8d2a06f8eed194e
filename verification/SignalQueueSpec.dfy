/**
 The pending-signal queue as lists: `produced` and `consumed` are newest first, as the links run.
 A dequeue is three steps (take the produced list, put it in front of consumed, pick the best), and
 enqueues from handlers and other threads may come between any two of them.
 */
module SignalQueueSpec {

  /** One queued siginfo; smaller numbers have priority. `id` tells instances apart. */
  datatype Signal = Signal(signo: int, id: nat)

  datatype Phase = Resting | Taken(list: seq<Signal>) | Merged

  datatype Queue = Queue(produced: seq<Signal>, consumed: seq<Signal>, phase: Phase)

  datatype Op = Enqueue(s: Signal) | Take | Merge | Pick

  datatype Option<+T> = None | Some(value: T)

  const EMPTY: Queue := Queue([], [], Resting)

  function Without<T>(l: seq<T>, k: nat): seq<T>
    requires k < |l|
  {
    l[..k] + l[k + 1..]
  }

  /** The scan of DequeueSignalUnsafe: `<=` moves the choice on, so the last minimum wins. */
  function BestFrom(l: seq<Signal>, best: nat, curr: nat): (k: nat)
    requires best < curr <= |l|
    ensures k < |l|
    decreases |l| - curr
  {
    if curr == |l| then best
    else BestFrom(l, if l[curr].signo <= l[best].signo then curr else best, curr + 1)
  }

  function Best(l: seq<Signal>): (k: nat)
    requires l != []
    ensures k < |l|
  {
    BestFrom(l, 0, 1)
  }

  predicate Enabled(q: Queue, op: Op) {
    match op
    case Enqueue(_) => true
    case Take => q.phase.Resting?
    case Merge => q.phase.Taken?
    case Pick => q.phase.Merged?
  }

  function Step(q: Queue, op: Op): (Queue, Option<Signal>)
    requires Enabled(q, op)
  {
    match op
    case Enqueue(s) => (q.(produced := [s] + q.produced), None)
    case Take => (q.(produced := [], phase := Taken(q.produced)), None)
    case Merge => (q.(consumed := q.phase.list + q.consumed, phase := Merged), None)
    case Pick =>
      if q.consumed == [] then (q.(phase := Resting), None)
      else
        var k := Best(q.consumed);
        (q.(consumed := Without(q.consumed, k), phase := Resting), Some(q.consumed[k]))
  }

  // The reference: a stable priority queue over two lines in arrival order.

  /** `waiting` has been collected by a dequeue; `arriving` has not. */
  datatype Line = Line(waiting: seq<Signal>, arriving: seq<Signal>)

  /** The first element no other element beats. */
  function FirstMin(l: seq<Signal>): (k: nat)
    requires l != []
    ensures k < |l|
    ensures forall i | 0 <= i < |l| :: l[k].signo <= l[i].signo
    ensures forall i | 0 <= i < k :: l[k].signo < l[i].signo
  {
    if |l| == 1 then 0
    else
      var k := FirstMin(l[1..]);
      if l[0].signo <= l[1..][k].signo then 0 else k + 1
  }

  function LineStep(a: Line, op: Op): (Line, Option<Signal>) {
    match op
    case Enqueue(s) => (a.(arriving := a.arriving + [s]), None)
    case Take => (Line(a.waiting + a.arriving, []), None)
    case Merge => (a, None)
    case Pick =>
      if a.waiting == [] then (a, None)
      else
        var k := FirstMin(a.waiting);
        (a.(waiting := Without(a.waiting, k)), Some(a.waiting[k]))
  }

  function Reverse<T>(l: seq<T>): seq<T> {
    seq(|l|, i requires 0 <= i < |l| => l[|l| - 1 - i])
  }

  function Collected(q: Queue): seq<Signal> {
    (if q.phase.Taken? then q.phase.list else []) + q.consumed
  }

  function Abstract(q: Queue): Line {
    Line(Reverse(Collected(q)), Reverse(q.produced))
  }

  lemma {:induction false} BestFromIsLastMin(l: seq<Signal>, best: nat, curr: nat)
    requires best < curr <= |l|
    requires forall i | 0 <= i < curr :: l[best].signo <= l[i].signo
    requires forall i | best < i < curr :: l[best].signo < l[i].signo
    ensures var k := BestFrom(l, best, curr);
            && (forall i | 0 <= i < |l| :: l[k].signo <= l[i].signo)
            && (forall i | k < i < |l| :: l[k].signo < l[i].signo)
    decreases |l| - curr
  {
    if curr < |l| {
      BestFromIsLastMin(l, if l[curr].signo <= l[best].signo then curr else best, curr + 1);
    }
  }

  /** In a newest-first list the last minimum is the first one in arrival order. */
  lemma BestIsFirstArrived(l: seq<Signal>)
    requires l != []
    ensures Best(l) == |l| - 1 - FirstMin(Reverse(l))
  {
    BestFromIsLastMin(l, 0, 1);
    var k, r := Best(l), Reverse(l);
    var f := FirstMin(r);
    assert r[|l| - 1 - k] == l[k];
    assert r[f] == l[|l| - 1 - f];
  }

  lemma {:induction false} ReverseConcat<T>(a: seq<T>, b: seq<T>)
    ensures Reverse(a + b) == Reverse(b) + Reverse(a)
  {
    forall i | 0 <= i < |a| + |b|
      ensures Reverse(a + b)[i] == (Reverse(b) + Reverse(a))[i]
    {
      assert Reverse(a + b)[i] == (a + b)[|a| + |b| - 1 - i];
    }
  }

  lemma {:induction false} ReverseWithout<T>(l: seq<T>, k: nat)
    requires k < |l|
    ensures Reverse(Without(l, k)) == Without(Reverse(l), |l| - 1 - k)
  {
    var front, back := l[..k], l[k + 1..];
    ReverseConcat(front, back);
    assert l == front + [l[k]] + back;
    ReverseConcat(front + [l[k]], back);
    ReverseConcat(front, [l[k]]);
    assert Reverse([l[k]]) == [l[k]];
    var r := Reverse(back) + ([l[k]] + Reverse(front));
    assert Reverse(l) == r;
    assert r[..|back|] == Reverse(back) && r[|back| + 1..] == Reverse(front);
  }

  lemma PickRefines(q: Queue)
    requires q.phase.Merged?
    ensures LineStep(Abstract(q), Pick) == (Abstract(Step(q, Pick).0), Step(q, Pick).1)
  {
    var n := Step(q, Pick).0;
    assert Collected(q) == q.consumed;
    assert Collected(n) == n.consumed;
    if q.consumed != [] {
      BestIsFirstArrived(q.consumed);
      ReverseWithout(q.consumed, Best(q.consumed));
    }
  }

  /** Each step of the lock-free lists is the same step of the reference, with the same result. */
  lemma StepRefines(q: Queue, op: Op)
    requires Enabled(q, op)
    ensures LineStep(Abstract(q), op) == (Abstract(Step(q, op).0), Step(q, op).1)
  {
    match op
    case Enqueue(s) =>
      ReverseConcat([s], q.produced);
      assert Reverse([s]) == [s];
      assert Collected(Step(q, op).0) == Collected(q);
    case Take =>
      assert Collected(q) == q.consumed;
      assert Collected(Step(q, op).0) == q.produced + q.consumed;
      ReverseConcat(q.produced, q.consumed);
      assert Reverse(Step(q, op).0.produced) == [];
    case Merge =>
      assert Collected(Step(q, op).0) == Collected(q);
    case Pick =>
      PickRefines(q);
  }

  // Whole runs.

  ghost predicate LegalRun(q: Queue, ops: seq<Op>)
    decreases |ops|
  {
    ops == [] || (Enabled(q, ops[0]) && LegalRun(Step(q, ops[0]).0, ops[1..]))
  }

  /** The final state and the results in order; `None` results of steps that are not picks are left out. */
  function Run(q: Queue, ops: seq<Op>): (Queue, seq<Option<Signal>>)
    requires LegalRun(q, ops)
    decreases |ops|
  {
    if ops == [] then (q, [])
    else
      var (n, out) := Step(q, ops[0]);
      var (last, rest) := Run(n, ops[1..]);
      (last, (if ops[0].Pick? then [out] else []) + rest)
  }

  function RunLine(a: Line, ops: seq<Op>): (Line, seq<Option<Signal>>)
    decreases |ops|
  {
    if ops == [] then (a, [])
    else
      var (n, out) := LineStep(a, ops[0]);
      var (last, rest) := RunLine(n, ops[1..]);
      (last, (if ops[0].Pick? then [out] else []) + rest)
  }

  /** Any run of enqueues and dequeues, interleaved in any way, gives the results of the reference. */
  lemma {:induction false} QueueRefinesStablePriority(q: Queue, ops: seq<Op>)
    requires LegalRun(q, ops)
    ensures RunLine(Abstract(q), ops) == (Abstract(Run(q, ops).0), Run(q, ops).1)
    decreases |ops|
  {
    if ops != [] {
      StepRefines(q, ops[0]);
      QueueRefinesStablePriority(Step(q, ops[0]).0, ops[1..]);
    }
  }

  // What the reference promises: order, priority and conservation.

  ghost predicate Increasing(l: seq<Signal>) {
    forall i, j | 0 <= i < j < |l| :: l[i].id < l[j].id
  }

  /** Arrivals carry growing ids, each above everything queued or delivered so far. */
  ghost predicate FreshArrivals(ops: seq<Op>, bound: nat)
    decreases |ops|
  {
    ops == [] ||
    if ops[0].Enqueue? then bound <= ops[0].s.id && FreshArrivals(ops[1..], ops[0].s.id + 1)
    else FreshArrivals(ops[1..], bound)
  }

  ghost predicate InArrivalOrder(a: Line, bound: nat) {
    Increasing(a.waiting + a.arriving) && forall s | s in a.waiting + a.arriving :: s.id < bound
  }

  /** The pick is the smallest number waiting and, among equals, the earliest arrival. */
  lemma PickIsPriorityThenArrival(a: Line, bound: nat)
    requires InArrivalOrder(a, bound) && a.waiting != []
    ensures var (n, out) := LineStep(a, Pick);
            && out.Some? && out.value in a.waiting
            && (forall s | s in a.waiting ::
                  out.value.signo < s.signo || (out.value.signo == s.signo && out.value.id <= s.id))
            && InArrivalOrder(n, bound)
            && multiset(a.waiting) == multiset(n.waiting) + multiset{out.value}
  {
    var k := FirstMin(a.waiting);
    var w := a.waiting;
    assert w == w[..k] + [w[k]] + w[k + 1..];
    forall i | 0 <= i < |w|
      ensures w[k].signo < w[i].signo || (w[k].signo == w[i].signo && w[k].id <= w[i].id)
    {
      assert (w + a.arriving)[i] == w[i] && (w + a.arriving)[k] == w[k];
    }
    WithoutKeepsOrder(w, a.arriving, k);
  }

  lemma WithoutKeepsOrder(w: seq<Signal>, tail: seq<Signal>, k: nat)
    requires k < |w| && Increasing(w + tail)
    ensures Increasing(Without(w, k) + tail)
    ensures forall s | s in Without(w, k) + tail :: s in w + tail
  {
    var l, n := w + tail, Without(w, k) + tail;
    assert forall i | 0 <= i < |n| :: n[i] == if i < k then l[i] else l[i + 1];
    forall i, j | 0 <= i < j < |n|
      ensures n[i].id < n[j].id
    {
      var i', j' := if i < k then i else i + 1, if j < k then j else j + 1;
      assert l[i'].id < l[j'].id;
    }
  }

  /** The signal an op brings in, as a multiset. */
  function In(op: Op): multiset<Signal> {
    if op.Enqueue? then multiset{op.s} else multiset{}
  }

  function Out(result: Option<Signal>): multiset<Signal> {
    if result.Some? then multiset{result.value} else multiset{}
  }

  function Content(a: Line): multiset<Signal> {
    multiset(a.waiting + a.arriving)
  }

  function Enqueued(ops: seq<Op>): multiset<Signal> {
    if ops == [] then multiset{} else In(ops[0]) + Enqueued(ops[1..])
  }

  function Delivered(results: seq<Option<Signal>>): multiset<Signal> {
    if results == [] then multiset{} else Out(results[0]) + Delivered(results[1..])
  }

  lemma LineStepConserves(a: Line, op: Op)
    ensures var (n, out) := LineStep(a, op); Content(n) + Out(out) == Content(a) + In(op)
  {
    if op.Pick? && a.waiting != [] {
      var w, k := a.waiting, FirstMin(a.waiting);
      PickOne(w, k);
      assert Content(LineStep(a, op).0) == multiset(w[..k] + w[k + 1..]) + multiset(a.arriving);
    }
  }

  lemma PickOne(w: seq<Signal>, k: nat)
    requires k < |w|
    ensures multiset(w) == multiset(w[..k] + w[k + 1..]) + multiset{w[k]}
  {
    assert w == w[..k] + [w[k]] + w[k + 1..];
  }

  lemma Balance(a: multiset<Signal>, n: multiset<Signal>, last: multiset<Signal>, arrived: multiset<Signal>,
                gone: multiset<Signal>, arrivedLater: multiset<Signal>, goneLater: multiset<Signal>)
    requires n + gone == a + arrived && last + goneLater == n + arrivedLater
    ensures last + (gone + goneLater) == a + (arrived + arrivedLater)
  {
    forall x
      ensures (last + (gone + goneLater))[x] == (a + (arrived + arrivedLater))[x]
    {
      assert (n + gone)[x] == (a + arrived)[x];
      assert (last + goneLater)[x] == (n + arrivedLater)[x];
    }
  }

  lemma DeliveredFirst(pick: bool, out: Option<Signal>, rest: seq<Option<Signal>>)
    requires pick || out == None
    ensures Delivered((if pick then [out] else []) + rest) == Out(out) + Delivered(rest)
  {
    if pick {
      assert ([out] + rest)[1..] == rest;
    } else {
      assert [] + rest == rest;
    }
  }

  /** Nothing is lost and nothing is delivered twice, whatever the interleaving. */
  lemma {:induction false} RunConserves(a: Line, ops: seq<Op>)
    ensures var (n, results) := RunLine(a, ops);
            Content(n) + Delivered(results) == Content(a) + Enqueued(ops)
    decreases |ops|
  {
    if ops != [] {
      var (n, out) := LineStep(a, ops[0]);
      LineStepConserves(a, ops[0]);
      RunConserves(n, ops[1..]);
      var (last, rest) := RunLine(n, ops[1..]);
      DeliveredFirst(ops[0].Pick?, out, rest);
      Balance(Content(a), Content(n), Content(last), In(ops[0]), Out(out), Enqueued(ops[1..]), Delivered(rest));
    }
  }

  /** Both lines stay in arrival order throughout a run, so every pick in it is a stable minimum. */
  lemma {:induction false} RunKeepsArrivalOrder(a: Line, ops: seq<Op>, bound: nat)
    requires InArrivalOrder(a, bound) && FreshArrivals(ops, bound)
    ensures Increasing(RunLine(a, ops).0.waiting + RunLine(a, ops).0.arriving)
    decreases |ops|
  {
    if ops != [] {
      var (n, out) := LineStep(a, ops[0]);
      match ops[0] {
        case Enqueue(s) => assert n.waiting + n.arriving == (a.waiting + a.arriving) + [s];
        case Take => assert n.waiting + n.arriving == a.waiting + a.arriving;
        case Merge =>
        case Pick =>
          if a.waiting != [] {
            PickIsPriorityThenArrival(a, bound);
          }
      }
      RunKeepsArrivalOrder(n, ops[1..], if ops[0].Enqueue? then ops[0].s.id + 1 else bound);
    }
  }

  /** In every reachable state, a pick from the lock-free lists is the smallest number, earliest first. */
  lemma EveryPickStable(ops: seq<Op>)
    requires LegalRun(EMPTY, ops) && FreshArrivals(ops, 0)
    requires Run(EMPTY, ops).0.phase.Merged? && Run(EMPTY, ops).0.consumed != []
    ensures var q := Run(EMPTY, ops).0;
            var out := Step(q, Pick).1;
            && out.Some? && out.value in q.consumed
            && forall s | s in q.consumed ::
                 out.value.signo < s.signo || (out.value.signo == s.signo && out.value.id <= s.id)
  {
    QueueRefinesStablePriority(EMPTY, ops);
    assert Abstract(EMPTY) == Line([], []);
    RunKeepsArrivalOrder(Line([], []), ops, 0);
    PickStable(Run(EMPTY, ops).0);
  }

  lemma ReverseHas<T>(l: seq<T>, x: T)
    requires x in l
    ensures x in Reverse(l)
  {
    var i :| 0 <= i < |l| && l[i] == x;
    assert Reverse(l)[|l| - 1 - i] == x;
  }

  lemma WaitingIsConsumed(q: Queue, s: Signal)
    requires q.phase.Merged? && s in q.consumed
    ensures s in Abstract(q).waiting
  {
    assert Collected(q) == q.consumed;
    ReverseHas(q.consumed, s);
  }

  lemma PickStable(q: Queue)
    requires q.phase.Merged? && q.consumed != [] && Increasing(Abstract(q).waiting + Abstract(q).arriving)
    ensures var out := Step(q, Pick).1;
            && out.Some? && out.value in q.consumed
            && forall s | s in q.consumed ::
                 out.value.signo < s.signo || (out.value.signo == s.signo && out.value.id <= s.id)
  {
    var a := Abstract(q);
    forall s | s in q.consumed ensures s in a.waiting {
      WaitingIsConsumed(q, s);
    }
    PickRefines(q);
    var bound := UpperBound(a.waiting + a.arriving);
    PickIsPriorityThenArrival(a, bound);
  }

  lemma UpperBound(l: seq<Signal>) returns (bound: nat)
    ensures forall s | s in l :: s.id < bound
  {
    bound := 0;
    for i := 0 to |l|
      invariant forall j | 0 <= j < i :: l[j].id < bound
    {
      bound := if bound <= l[i].id then l[i].id + 1 else bound;
    }
  }
}
