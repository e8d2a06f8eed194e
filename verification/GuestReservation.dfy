/**
 The guest's exclusive load and store on top of the owner table: the cpu remembers the region and the value of its
 last load, and a store goes through only for that region. Regions are named by their first address; `last` and
 `pair` record the loads for the statements below and are not part of the program.
 */
module GuestReservation {
  import R = Reservation

  /** A load of a region, begun when the log had `since` entries. */
  datatype LastLoad = NoLoad | LoadOf(region: nat, since: nat, read: nat)

  datatype Cpu = Cpu(
    address: nat,    // reservation_address; 0 is the null address
    value: nat,      // reservation_value
    last: LastLoad,  // the last load, if no store or clear has come since
    pair: LastLoad)  // what `last` was when the last store began

  datatype Guest = Guest(sys: R.System, cpus: map<nat, Cpu>)

  /** `merged` is the remembered value with the stored bytes put in. */
  datatype Op =
    | Load(cpu: nat, addr: nat)
    | Store(cpu: nat, addr: nat, merged: nat)
    | Clear(cpu: nat)
    | Go(cpu: nat)
    | PlainStore(addr: nat, value: nat)

  const NO_LOADS: Cpu := Cpu(0, 0, NoLoad, NoLoad)
  const POWER_ON: Guest := Guest(R.POWER_ON, map[])

  function CpuOf(g: Guest, c: nat): Cpu {
    if c in g.cpus then g.cpus[c] else NO_LOADS
  }

  /** The region an address is in. */
  function Region(addr: nat): (a: nat)
    ensures a % R.REGION == 0 && a <= addr < a + R.REGION
  {
    addr - addr % R.REGION
  }

  predicate Enabled(g: Guest, op: Op) {
    match op
    case Load(c, _) => R.CpuAt(g.sys, c) == R.Idle
    case Store(c, _, _) => R.CpuAt(g.sys, c) == R.Idle
    case Clear(c) => R.CpuAt(g.sys, c) == R.Idle
    case Go(c) => R.CpuAt(g.sys, c) != R.Idle
    case PlainStore(_, _) => true
  }

  function With(g: Guest, c: nat, cpu: Cpu): Guest {
    g.(cpus := g.cpus[c := cpu])
  }

  function GoStep(g: Guest, c: nat): Guest
    requires R.CpuAt(g.sys, c) != R.Idle
  {
    var n := g.(sys := R.GoStep(g.sys, c));
    match R.CpuAt(g.sys, c)
    case LoadMemory(a) =>
      var read, cpu := R.Memory(g.sys, a), CpuOf(g, c);
      With(n, c, cpu.(value := read, last := if cpu.last.LoadOf? then cpu.last.(read := read) else NoLoad))
    case _ => n
  }

  function Step(g: Guest, op: Op): Guest
    requires Enabled(g, op)
  {
    match op
    case Load(c, addr) =>
      var a := Region(addr);
      With(g.(sys := R.Step(g.sys, R.StartLoad(c, a))), c,
           CpuOf(g, c).(address := a, last := LoadOf(a, |g.sys.log|, 0)))
    case Store(c, addr, merged) =>
      var a, cpu := Region(addr), CpuOf(g, c);
      var sys := if a != cpu.address then R.Finish(g.sys, c, R.Exchanged(false))
                 else R.Step(g.sys, R.StartExchange(c, a, cpu.value, merged));
      With(g.(sys := sys), c, cpu.(address := 0, last := NoLoad, pair := cpu.last))
    case Clear(c) => With(g, c, CpuOf(g, c).(address := 0, last := NoLoad))
    case Go(c) => GoStep(g, c)
    case PlainStore(addr, value) => g.(sys := R.Step(g.sys, R.PlainStore(addr, value)))
  }

  predicate IsLoadEvent(e: R.Event, c: nat, slot: nat) {
    (e.Reserved? || e.NotReserved?) && e.cpu == c && e.slot == slot
  }

  /** The load has told the owner table, at a log position after it began. */
  ghost predicate Made(log: seq<R.Event>, c: nat, l: LastLoad) {
    l.LoadOf? && exists j :: l.since <= j < |log| && IsLoadEvent(log[j], c, R.SlotOf(l.region))
  }

  ghost predicate Paired(log: seq<R.Event>, c: nat, cpu: Cpu, region: nat) {
    region != 0 ==> Made(log, c, cpu.pair) && cpu.pair.region == region
  }

  /** The last thing c told the table is that it took the slot's lock, at log position j. */
  ghost predicate LockIsLast(log: seq<R.Event>, c: nat, slot: nat, j: nat) {
    j < |log| && log[j] == R.LockTaken(c, slot) && forall k | j < k < |log| :: log[k].cpu != c
  }

  ghost predicate HasLockLast(log: seq<R.Event>, c: nat, slot: nat) {
    exists j :: LockIsLast(log, c, slot, j)
  }

  ghost predicate CpuOk(g: Guest, c: nat) {
    var cpu, log := CpuOf(g, c), g.sys.log;
    match R.CpuAt(g.sys, c)
    case LoadOwner(a) => cpu.last.LoadOf? && cpu.last.region == a && cpu.last.since <= |log| && cpu.address == a
    case Steal(a, _) => cpu.last.LoadOf? && cpu.last.region == a && cpu.last.since <= |log| && cpu.address == a
    case LoadMemory(a) => Made(log, c, cpu.last) && cpu.last.region == a && cpu.address == a
    case Idle =>
      if cpu.last.NoLoad? then cpu.address == 0
      else Made(log, c, cpu.last) && cpu.address == cpu.last.region && cpu.value == cpu.last.read
    case Lock(a, expected, _) =>
      cpu.address == 0 && cpu.last.NoLoad? && Paired(log, c, cpu, a) && (a != 0 ==> expected == cpu.pair.read)
    case Write(a, expected, _) =>
      && cpu.address == 0 && cpu.last.NoLoad? && Paired(log, c, cpu, a) && (a != 0 ==> expected == cpu.pair.read)
      && HasLockLast(log, c, R.SlotOf(a))
    case Unlock(a, _) => cpu.address == 0 && cpu.last.NoLoad? && Paired(log, c, cpu, a)
  }

  ghost predicate Inv(g: Guest) {
    R.Inv(g.sys) && forall c :: CpuOk(g, c)
  }

  lemma MadeStays(log: seq<R.Event>, more: seq<R.Event>, c: nat, l: LastLoad)
    requires log <= more && Made(log, c, l)
    ensures Made(more, c, l)
  {
    var j :| l.since <= j < |log| && IsLoadEvent(log[j], c, R.SlotOf(l.region));
    assert IsLoadEvent(more[j], c, R.SlotOf(l.region));
  }

  /** Whatever others do, a cpu that has not moved keeps what it knows. */
  lemma OthersKeep(g: Guest, n: Guest, d: nat)
    requires CpuOk(g, d) && g.sys.log <= n.sys.log
    requires forall k | |g.sys.log| <= k < |n.sys.log| :: n.sys.log[k].cpu != d
    requires R.CpuAt(n.sys, d) == R.CpuAt(g.sys, d) && CpuOf(n, d) == CpuOf(g, d)
    ensures CpuOk(n, d)
  {
    var cpu := CpuOf(g, d);
    if Made(g.sys.log, d, cpu.last) {
      MadeStays(g.sys.log, n.sys.log, d, cpu.last);
    }
    if Made(g.sys.log, d, cpu.pair) {
      MadeStays(g.sys.log, n.sys.log, d, cpu.pair);
    }
    if R.CpuAt(g.sys, d).Write? {
      var h := R.SlotOf(R.CpuAt(g.sys, d).addr);
      var j: nat :| LockIsLast(g.sys.log, d, h, j);
      assert LockIsLast(n.sys.log, d, h, j);
    }
  }

  lemma GoKeeps(g: Guest, c: nat)
    requires Inv(g) && R.CpuAt(g.sys, c) != R.Idle
    ensures CpuOk(GoStep(g, c), c)
  {
    var n, log := GoStep(g, c), g.sys.log;
    assert CpuOk(g, c);
    var cpu, more := CpuOf(g, c), n.sys.log;
    assert log <= more;
    if Made(log, c, cpu.last) {
      MadeStays(log, more, c, cpu.last);
    }
    if Made(log, c, cpu.pair) {
      MadeStays(log, more, c, cpu.pair);
    }
    if R.CpuAt(g.sys, c).Steal? || (R.CpuAt(g.sys, c).LoadOwner? && |log| < |more|) {
      assert IsLoadEvent(more[|log|], c, R.SlotOf(cpu.last.region));
      assert Made(more, c, cpu.last);
    }
    if R.CpuAt(n.sys, c).Write? {
      assert LockIsLast(more, c, R.SlotOf(R.CpuAt(n.sys, c).addr), |log|);
    }
  }

  /** The cpu that loads, stores or clears. */
  lemma StartKeeps(g: Guest, op: Op)
    requires Inv(g) && Enabled(g, op) && (op.Load? || op.Store? || op.Clear?)
    ensures CpuOk(Step(g, op), op.cpu)
  {
    assert CpuOk(g, op.cpu);
  }

  /** A step of the table logs at most one event, of the cpu that moves. */
  lemma GoLogsOwn(s: R.System, c: nat)
    requires R.CpuAt(s, c) != R.Idle
    ensures var n := R.GoStep(s, c);
            || n.log == s.log
            || (|n.log| == |s.log| + 1 && n.log == s.log + [n.log[|s.log|]] && n.log[|s.log|].cpu == c)
  {
  }

  lemma StepLeaves(g: Guest, op: Op, d: nat)
    requires Enabled(g, op) && (op.PlainStore? || op.cpu != d)
    ensures var n := Step(g, op);
            && R.CpuAt(n.sys, d) == R.CpuAt(g.sys, d) && CpuOf(n, d) == CpuOf(g, d)
            && g.sys.log <= n.sys.log && forall k | |g.sys.log| <= k < |n.sys.log| :: n.sys.log[k].cpu != d
  {
    if op.Go? {
      R.StepLeaves(g.sys, R.Go(op.cpu), d);
      GoLogsOwn(g.sys, op.cpu);
    }
  }

  lemma StepKeepsInv(g: Guest, op: Op)
    requires Inv(g) && Enabled(g, op)
    ensures Inv(Step(g, op))
  {
    TableKeepsInv(g, op);
    forall d
      ensures CpuOk(Step(g, op), d)
    {
      if op.PlainStore? || op.cpu != d {
        StepLeaves(g, op, d);
        assert CpuOk(g, d);
        OthersKeep(g, Step(g, op), d);
      } else if op.Go? {
        GoKeeps(g, d);
      } else {
        StartKeeps(g, op);
      }
    }
  }

  lemma TableKeepsInv(g: Guest, op: Op)
    requires R.Inv(g.sys) && Enabled(g, op)
    ensures R.Inv(Step(g, op).sys)
  {
    match op
    case Load(c, addr) => R.StepKeepsInv(g.sys, R.StartLoad(c, Region(addr)));
    case Store(c, addr, merged) =>
      if Region(addr) == CpuOf(g, c).address {
        R.StepKeepsInv(g.sys, R.StartExchange(c, Region(addr), CpuOf(g, c).value, merged));
      } else {
        R.QuietKeepsInv(g.sys, Step(g, op).sys, c);
      }
    case Clear(_) =>
    case Go(c) => R.StepKeepsInv(g.sys, R.Go(c));
    case PlainStore(addr, value) => R.StepKeepsInv(g.sys, R.PlainStore(addr, value));
  }

  ghost predicate LegalRun(g: Guest, ops: seq<Op>)
    decreases |ops|
  {
    ops == [] || (Enabled(g, ops[0]) && LegalRun(Step(g, ops[0]), ops[1..]))
  }

  function Run(g: Guest, ops: seq<Op>): Guest
    requires LegalRun(g, ops)
    decreases |ops|
  {
    if ops == [] then g else Run(Step(g, ops[0]), ops[1..])
  }

  lemma {:induction false} RunKeepsInv(g: Guest, ops: seq<Op>)
    requires Inv(g) && LegalRun(g, ops)
    ensures Inv(Run(g, ops))
    decreases |ops|
  {
    if ops != [] {
      StepKeepsInv(g, ops[0]);
      RunKeepsInv(Step(g, ops[0]), ops[1..]);
    }
  }

  /**
   In every interleaving: a store goes on to the owner table if and only if its cpu's last load of any address was of
   the same region with no store or clear since, or the region is the null one and there is no such load. Otherwise
   it fails at once.
   */
  lemma StoreStartsExactly(ops: seq<Op>, c: nat, addr: nat, merged: nat)
    requires LegalRun(POWER_ON, ops) && Enabled(Run(POWER_ON, ops), Store(c, addr, merged))
    ensures var g := Run(POWER_ON, ops);
            var n, last := Step(g, Store(c, addr, merged)), CpuOf(g, c).last;
            && (R.CpuAt(n.sys, c).Lock? <==> if last.LoadOf? then last.region == Region(addr) else Region(addr) == 0)
            && (!R.CpuAt(n.sys, c).Lock? ==> n.sys.memory == g.sys.memory && n.sys.replies[c] == R.Exchanged(false))
            && CpuOf(n, c).last == NoLoad
  {
    RunKeepsInv(POWER_ON, ops);
    assert CpuOk(Run(POWER_ON, ops), c);
  }

  /** The lock was taken on a reservation made by the load, and not by an earlier one. */
  ghost predicate LockedSince(log: seq<R.Event>, c: nat, slot: nat, since: nat) {
    exists i, j :: since <= i && R.LockedAt(log, c, slot, i, j)
  }

  /**
   In every interleaving: a store that holds its lock, at any region but the null one, pairs with its cpu's last load
   of any address. That load itself made the reservation, and the store writes if and only if memory still holds
   what that load read.
   */
  lemma StorePairsWithLastLoad(ops: seq<Op>, c: nat)
    requires LegalRun(POWER_ON, ops)
    requires var at := R.CpuAt(Run(POWER_ON, ops).sys, c); at.Write? && at.addr != 0
    ensures var g := Run(POWER_ON, ops);
            var a, pair := R.CpuAt(g.sys, c).addr, CpuOf(g, c).pair;
            && pair.LoadOf? && pair.region == a
            && LockedSince(g.sys.log, c, R.SlotOf(a), pair.since)
            && R.CpuAt(GoStep(g, c).sys, c) == R.Unlock(a, R.Memory(g.sys, a) == pair.read)
  {
    RunKeepsInv(POWER_ON, ops);
    var g := Run(POWER_ON, ops);
    var log, a, pair := g.sys.log, R.CpuAt(g.sys, c).addr, CpuOf(g, c).pair;
    assert CpuOk(g, c) && R.CpuOk(g.sys, c);
    LockIsOnThatLoad(log, c, R.SlotOf(a), pair);
  }

  lemma LockIsOnThatLoad(log: seq<R.Event>, c: nat, h: nat, l: LastLoad)
    requires R.HasLock(log, c, h) && HasLockLast(log, c, h) && Made(log, c, l) && R.SlotOf(l.region) == h
    ensures LockedSince(log, c, h, l.since)
  {
    var i: nat, j: nat :| R.LockedAt(log, c, h, i, j);
    var last: nat :| LockIsLast(log, c, h, last);
    var k :| l.since <= k < |log| && IsLoadEvent(log[k], c, h);
    assert last == j && k < j;
    assert i < k ==> R.Breaks(log[k], c, h);
  }

  // The null region: the cleared address is its own, so a store there needs no load.

  /** A load with nobody in between, when it has not to wait for a lock. */
  function LoadOps(c: nat, addr: nat): seq<Op> {
    [Load(c, addr), Go(c), Go(c), Go(c)]
  }

  /** A store with nobody in between, when it gets its lock. */
  function StoreOps(c: nat, addr: nat, merged: nat): seq<Op> {
    [Store(c, addr, merged), Go(c), Go(c), Go(c)]
  }

  lemma LoadAloneRun(g: Guest, c: nat, addr: nat)
    requires R.CpuAt(g.sys, c) == R.Idle && R.OwnerOf(g.sys, R.SlotOf(Region(addr))) != R.Locked
    ensures var ops := LoadOps(c, addr);
            && LegalRun(g, ops)
            && var n, a := Run(g, ops), Region(addr);
               && R.CpuAt(n.sys, c) == R.Idle && n.sys.memory == g.sys.memory
               && CpuOf(n, c).address == a && CpuOf(n, c).value == R.Memory(g.sys, a)
               && forall h :: R.OwnerOf(n.sys, h) == if h == R.SlotOf(a) then R.Owned(c) else R.OwnerOf(g.sys, h)
  {
    var g1 := Step(g, Load(c, addr));
    var g2 := GoStep(g1, c);
    var g3 := GoStep(g2, c);
    var n := GoStep(g3, c);
    var ops := LoadOps(c, addr);
    assert ops[1..][1..] == ops[2..] && ops[2..][1..] == ops[3..] && ops[3..][1..] == [];
    assert LegalRun(n, []) && Run(n, []) == n;
    assert LegalRun(g3, ops[3..]) && Run(g3, ops[3..]) == n;
    assert LegalRun(g2, ops[2..]) && Run(g2, ops[2..]) == n;
    assert LegalRun(g1, ops[1..]) && Run(g1, ops[1..]) == n;
  }

  lemma StoreAloneRun(g: Guest, c: nat, addr: nat, merged: nat)
    requires R.CpuAt(g.sys, c) == R.Idle && CpuOf(g, c).address == Region(addr)
    requires R.OwnerOf(g.sys, R.SlotOf(Region(addr))) == R.Owned(c)
    requires R.Memory(g.sys, Region(addr)) == CpuOf(g, c).value
    ensures var ops := StoreOps(c, addr, merged);
            && LegalRun(g, ops)
            && var n, a := Run(g, ops), Region(addr);
               && R.CpuAt(n.sys, c) == R.Idle && R.Succeeded(n.sys, c)
               && n.sys.memory == g.sys.memory[a := merged]
               && CpuOf(n, c) == CpuOf(g, c).(address := 0, last := NoLoad, pair := CpuOf(g, c).last)
               && forall h :: R.OwnerOf(n.sys, h) == if h == R.SlotOf(a) then R.Free else R.OwnerOf(g.sys, h)
  {
    var g1 := Step(g, Store(c, addr, merged));
    var g2 := GoStep(g1, c);
    var g3 := GoStep(g2, c);
    var n := GoStep(g3, c);
    var ops := StoreOps(c, addr, merged);
    assert ops[1..][1..] == ops[2..] && ops[2..][1..] == ops[3..] && ops[3..][1..] == [];
    assert LegalRun(n, []) && Run(n, []) == n;
    assert LegalRun(g3, ops[3..]) && Run(g3, ops[3..]) == n;
    assert LegalRun(g2, ops[2..]) && Run(g2, ops[2..]) == n;
    assert LegalRun(g1, ops[1..]) && Run(g1, ops[1..]) == n;
  }

  lemma {:induction false} RunJoin(g: Guest, a: seq<Op>, b: seq<Op>)
    requires LegalRun(g, a) && LegalRun(Run(g, a), b)
    ensures LegalRun(g, a + b) && Run(g, a + b) == Run(Run(g, a), b)
    decreases |a|
  {
    if a == [] {
      assert a + b == b;
    } else {
      RunJoin(Step(g, a[0]), a[1..], b);
      assert (a + b)[1..] == a[1..] + b;
    }
  }

  /** Cpu 0 loads region 0, then region 8. */
  lemma LoadsReached()
    ensures LegalRun(POWER_ON, LoadOps(0, 0) + LoadOps(0, 8))
    ensures var g := Run(POWER_ON, LoadOps(0, 0) + LoadOps(0, 8));
            && R.CpuAt(g.sys, 0) == R.Idle && CpuOf(g, 0).address == 8 && CpuOf(g, 0).value == 0
            && R.OwnerOf(g.sys, 0) == R.OwnerOf(g.sys, 1) == R.Owned(0) && g.sys.memory == map[]
  {
    assert R.SlotOf(0) == 0 && R.SlotOf(8) == 1 && Region(0) == 0 && Region(8) == 8;
    LoadAloneRun(POWER_ON, 0, 0);
    LoadAloneRun(Run(POWER_ON, LoadOps(0, 0)), 0, 8);
    RunJoin(POWER_ON, LoadOps(0, 0), LoadOps(0, 8));
  }

  /** A store to the null region succeeds although another load, and a store to that, came after the load of it. */
  lemma NullRegionExample()
    ensures var ops := LoadOps(0, 0) + LoadOps(0, 8) + StoreOps(0, 8, 1) + StoreOps(0, 0, 5);
            && LegalRun(POWER_ON, ops)
            && var n := Run(POWER_ON, ops);
               R.Succeeded(n.sys, 0) && R.Memory(n.sys, 0) == 5 && CpuOf(n, 0).pair == NoLoad
  {
    assert R.SlotOf(0) == 0 && R.SlotOf(8) == 1 && Region(0) == 0 && Region(8) == 8;
    var loads := LoadOps(0, 0) + LoadOps(0, 8);
    LoadsReached();
    var g := Run(POWER_ON, loads);
    StoreAloneRun(g, 0, 8, 1);
    RunJoin(POWER_ON, loads, StoreOps(0, 8, 1));
    StoreAloneRun(Run(g, StoreOps(0, 8, 1)), 0, 0, 5);
    RunJoin(POWER_ON, loads + StoreOps(0, 8, 1), StoreOps(0, 0, 5));
  }
}
