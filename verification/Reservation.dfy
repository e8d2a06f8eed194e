/**
 Exclusive load and store over a hashed table of owners, by any number of cpus. Every access to the
 owner table and to guest memory is one step; steps of different cpus interleave freely. The log
 records what happened to each slot and is not part of the program.
 */
module Reservation {

  const HASH_SIZE: nat := 4096
  const REGION: nat := 8

  datatype Owner = Free | Locked | Owned(cpu: nat)

  /** Where a cpu is inside ReservationLoad or ReservationExchange. */
  datatype At =
    | Idle
    | LoadOwner(addr: nat)
    | Steal(addr: nat, prev: Owner)
    | LoadMemory(addr: nat)
    | Lock(addr: nat, expected: nat, value: nat)
    | Write(addr: nat, expected: nat, value: nat)
    | Unlock(addr: nat, written: bool)

  datatype Event =
    | Reserved(cpu: nat, slot: nat)    // a load made its cpu the owner
    | NotReserved(cpu: nat, slot: nat) // a load that did not
    | LockTaken(cpu: nat, slot: nat)
    | Wrote(cpu: nat, slot: nat, addr: nat, expected: nat, value: nat)
    | Released(cpu: nat, slot: nat)

  /** The last thing a cpu was told. */
  datatype Reply = NoReply | Loaded(value: nat) | Exchanged(written: bool)

  datatype System = System(
    owners: map<nat, Owner>,
    memory: map<nat, nat>,
    cpus: map<nat, At>,
    replies: map<nat, Reply>,
    log: seq<Event>)

  datatype Act =
    | StartLoad(cpu: nat, addr: nat)
    | StartExchange(cpu: nat, addr: nat, expected: nat, value: nat)
    | Go(cpu: nat)
    | PlainStore(addr: nat, value: nat)

  const POWER_ON: System := System(map[], map[], map[], map[], [])

  function SlotOf(addr: nat): nat {
    (addr / REGION) % HASH_SIZE
  }

  /** Regions share a slot only if they are a whole table apart. */
  lemma SlotsDiffer(a: nat, b: nat)
    requires a % REGION == 0 && b % REGION == 0 && a < b < a + REGION * HASH_SIZE
    ensures SlotOf(a) < HASH_SIZE && SlotOf(a) != SlotOf(b)
  {
    var x, y := a / REGION, b / REGION;
    assert x < y < x + HASH_SIZE;
    assert x == x / HASH_SIZE * HASH_SIZE + x % HASH_SIZE && y == y / HASH_SIZE * HASH_SIZE + y % HASH_SIZE;
  }

  function OwnerOf(s: System, slot: nat): Owner {
    if slot in s.owners then s.owners[slot] else Free
  }

  function CpuAt(s: System, c: nat): At {
    if c in s.cpus then s.cpus[c] else Idle
  }

  function Memory(s: System, addr: nat): nat {
    if addr in s.memory then s.memory[addr] else 0
  }

  predicate Enabled(s: System, a: Act) {
    match a
    case StartLoad(c, _) => CpuAt(s, c) == Idle
    case StartExchange(c, _, _, _) => CpuAt(s, c) == Idle
    case Go(c) => CpuAt(s, c) != Idle
    case PlainStore(_, _) => true
  }

  function Move(s: System, c: nat, at: At): System {
    s.(cpus := s.cpus[c := at])
  }

  function Logged(s: System, e: Event): System {
    s.(log := s.log + [e])
  }

  function Finish(s: System, c: nat, r: Reply): System {
    s.(cpus := s.cpus[c := Idle], replies := s.replies[c := r])
  }

  function GoStep(s: System, c: nat): System
    requires CpuAt(s, c) != Idle
  {
    match CpuAt(s, c)
    case LoadOwner(addr) =>
      var prev := OwnerOf(s, SlotOf(addr));
      if prev == Locked then Logged(Move(s, c, LoadMemory(addr)), NotReserved(c, SlotOf(addr)))
      else Move(s, c, Steal(addr, prev))
    case Steal(addr, prev) =>
      var h := SlotOf(addr);
      if OwnerOf(s, h) == prev
      then Logged(Move(s.(owners := s.owners[h := Owned(c)]), c, LoadMemory(addr)), Reserved(c, h))
      else Logged(Move(s, c, LoadMemory(addr)), NotReserved(c, h))
    case LoadMemory(addr) => Finish(s, c, Loaded(Memory(s, addr)))
    case Lock(addr, expected, value) =>
      var h := SlotOf(addr);
      if OwnerOf(s, h) == Owned(c)
      then Logged(Move(s.(owners := s.owners[h := Locked]), c, Write(addr, expected, value)), LockTaken(c, h))
      else Finish(s, c, Exchanged(false))
    case Write(addr, expected, value) =>
      if Memory(s, addr) == expected
      then Logged(Move(s.(memory := s.memory[addr := value]), c, Unlock(addr, true)),
                  Wrote(c, SlotOf(addr), addr, expected, value))
      else Move(s, c, Unlock(addr, false))
    case Unlock(addr, written) =>
      var h := SlotOf(addr);
      Logged(Finish(s.(owners := s.owners[h := Free]), c, Exchanged(written)), Released(c, h))
    case Idle => s
  }

  function Step(s: System, a: Act): System
    requires Enabled(s, a)
  {
    match a
    case StartLoad(c, addr) => Move(s, c, LoadOwner(addr))
    case StartExchange(c, addr, expected, value) => Move(s, c, Lock(addr, expected, value))
    case Go(c) => GoStep(s, c)
    case PlainStore(addr, value) => s.(memory := s.memory[addr := value])
  }

  /** Between taking the slot's lock and giving it back. */
  predicate Holds(s: System, c: nat, slot: nat) {
    match CpuAt(s, c)
    case Write(addr, _, _) => SlotOf(addr) == slot
    case Unlock(addr, _) => SlotOf(addr) == slot
    case _ => false
  }

  /** Ends c's reservation of the slot: any reservation, lock, write or release there, or a failed load of c. */
  predicate Breaks(e: Event, c: nat, slot: nat) {
    e.slot == slot && (e.NotReserved? ==> e.cpu == c)
  }

  /** c's last load of the slot reserved it, at log position i, and nothing has broken that since. */
  ghost predicate ReservedAt(log: seq<Event>, c: nat, slot: nat, i: nat) {
    && i < |log| && log[i] == Reserved(c, slot)
    && forall k | i < k < |log| :: !Breaks(log[k], c, slot)
  }

  /** The same up to c's own lock at log position j. */
  ghost predicate LockedAt(log: seq<Event>, c: nat, slot: nat, i: nat, j: nat) {
    && i < j < |log| && log[i] == Reserved(c, slot) && log[j] == LockTaken(c, slot)
    && (forall k | i < k < j :: !Breaks(log[k], c, slot))
    && (forall k | j < k < |log| :: log[k].slot == slot ==> log[k].NotReserved?)
  }

  /** After that lock, c wrote addr at log position k, and nobody has touched the slot since. */
  ghost predicate WroteAt(log: seq<Event>, c: nat, addr: nat, i: nat, j: nat, k: nat) {
    && j < k < |log| && LockedAt(log[..k], c, SlotOf(addr), i, j)
    && log[k].Wrote? && log[k].cpu == c && log[k].slot == SlotOf(addr) && log[k].addr == addr
    && (forall m | k < m < |log| :: log[m].slot == SlotOf(addr) ==> log[m].NotReserved?)
  }

  ghost predicate HasWrite(log: seq<Event>, c: nat, addr: nat) {
    exists i, j, k :: WroteAt(log, c, addr, i, j, k)
  }

  ghost predicate HasReservation(log: seq<Event>, c: nat, slot: nat) {
    exists i :: ReservedAt(log, c, slot, i)
  }

  ghost predicate HasLock(log: seq<Event>, c: nat, slot: nat) {
    exists i, j :: LockedAt(log, c, slot, i, j)
  }

  /** A cpu owns a slot exactly if its last load of it reserved it and nothing has broken that since. */
  ghost predicate SlotOk(s: System, h: nat, c: nat) {
    OwnerOf(s, h) == Owned(c) <==> HasReservation(s.log, c, h)
  }

  ghost predicate CpuOk(s: System, c: nat) {
    match CpuAt(s, c)
    case Steal(addr, prev) =>
      prev != Locked && (OwnerOf(s, SlotOf(addr)) == Owned(c) ==> prev == Owned(c))
    case Write(addr, _, _) => OwnerOf(s, SlotOf(addr)) == Locked && HasLock(s.log, c, SlotOf(addr))
    case Unlock(addr, written) => OwnerOf(s, SlotOf(addr)) == Locked && (written ==> HasWrite(s.log, c, addr))
    case _ => true
  }

  /** At most one cpu is between lock and unlock of a slot. */
  ghost predicate Exclusive(s: System) {
    forall c, d, h | Holds(s, c, h) && Holds(s, d, h) :: c == d
  }

  ghost predicate Inv(s: System) {
    (forall h, c :: SlotOk(s, h, c)) && (forall c :: CpuOk(s, c)) && Exclusive(s)
  }

  lemma ReservationSurvives(log: seq<Event>, e: Event, c: nat, h: nat)
    requires HasReservation(log, c, h) && !Breaks(e, c, h)
    ensures HasReservation(log + [e], c, h)
  {
    var i: nat :| ReservedAt(log, c, h, i);
    assert ReservedAt(log + [e], c, h, i);
  }

  lemma LockSurvives(log: seq<Event>, e: Event, c: nat, h: nat)
    requires HasLock(log, c, h) && (e.slot == h ==> e.NotReserved?)
    ensures HasLock(log + [e], c, h)
  {
    var i: nat, j: nat :| LockedAt(log, c, h, i, j);
    assert LockedAt(log + [e], c, h, i, j);
  }

  lemma WriteSurvives(log: seq<Event>, e: Event, c: nat, addr: nat)
    requires HasWrite(log, c, addr) && (e.slot == SlotOf(addr) ==> e.NotReserved?)
    ensures HasWrite(log + [e], c, addr)
  {
    var i: nat, j: nat, k: nat :| WroteAt(log, c, addr, i, j, k);
    assert (log + [e])[..k] == log[..k];
    assert WroteAt(log + [e], c, addr, i, j, k);
  }

  lemma WriteLogged(log: seq<Event>, c: nat, addr: nat, expected: nat, value: nat)
    requires HasLock(log, c, SlotOf(addr))
    ensures HasWrite(log + [Wrote(c, SlotOf(addr), addr, expected, value)], c, addr)
  {
    var i: nat, j: nat :| LockedAt(log, c, SlotOf(addr), i, j);
    var n := log + [Wrote(c, SlotOf(addr), addr, expected, value)];
    assert n[..|log|] == log;
    assert WroteAt(n, c, addr, i, j, |log|);
  }

  /** A reservation in the longer log is the new one or one that survived. */
  lemma ReservationCameFrom(log: seq<Event>, e: Event, c: nat, h: nat)
    requires HasReservation(log + [e], c, h)
    ensures e == Reserved(c, h) || (HasReservation(log, c, h) && !Breaks(e, c, h))
  {
    var n := log + [e];
    var i: nat :| ReservedAt(n, c, h, i);
    if i < |log| {
      assert n[|log|] == e && forall k | 0 <= k < |log| :: log[k] == n[k];
      assert ReservedAt(log, c, h, i);
    }
  }

  /** A step of cpu c that appends e to the log and changes at most the owner of e's slot. */
  lemma EventKeepsInv(s: System, n: System, c: nat, e: Event)
    requires Inv(s) && n.log == s.log + [e]
    requires forall d | d != c :: CpuAt(n, d) == CpuAt(s, d)
    requires forall h | h != e.slot :: OwnerOf(n, h) == OwnerOf(s, h)
    requires OwnerOf(n, e.slot).Owned? ==>
               || (OwnerOf(n, e.slot) == OwnerOf(s, e.slot) && !Breaks(e, OwnerOf(s, e.slot).cpu, e.slot))
               || (OwnerOf(n, e.slot) == Owned(c) && e == Reserved(c, e.slot))
    requires e.Reserved? ==> OwnerOf(n, e.slot) == Owned(e.cpu)
    requires !e.NotReserved? ==> forall d | d != c :: !Holds(s, d, e.slot)
    requires e.NotReserved? ==> OwnerOf(n, e.slot) == OwnerOf(s, e.slot)
    requires CpuOk(n, c)
    requires forall h | Holds(n, c, h) :: h == e.slot && (e.NotReserved? ==> Holds(s, c, h))
    requires forall d | d != c && CpuAt(s, d).Steal? && SlotOf(CpuAt(s, d).addr) == e.slot ::
               OwnerOf(n, e.slot) == Owned(d) ==> OwnerOf(s, e.slot) == Owned(d)
    ensures Inv(n)
  {
    forall h, d
      ensures SlotOk(n, h, d)
    {
      assert SlotOk(s, h, d);
      if OwnerOf(n, h) == Owned(d) {
        if h == e.slot && e == Reserved(d, h) {
          assert ReservedAt(n.log, d, h, |s.log|);
        } else {
          ReservationSurvives(s.log, e, d, h);
        }
      }
      if HasReservation(n.log, d, h) {
        ReservationCameFrom(s.log, e, d, h);
      }
    }
    forall d
      ensures CpuOk(n, d)
    {
      if d != c {
        assert CpuOk(s, d);
        if CpuAt(s, d).Write? {
          assert Holds(s, d, SlotOf(CpuAt(s, d).addr));
          LockSurvives(s.log, e, d, SlotOf(CpuAt(s, d).addr));
        } else if CpuAt(s, d).Unlock? {
          assert Holds(s, d, SlotOf(CpuAt(s, d).addr));
          if CpuAt(s, d).written {
            WriteSurvives(s.log, e, d, CpuAt(s, d).addr);
          }
        }
      }
    }
    forall d, b, h | Holds(n, d, h) && Holds(n, b, h)
      ensures d == b
    {
      assert d != c ==> Holds(s, d, h);
      assert b != c ==> Holds(s, b, h);
    }
  }

  /** A step of cpu c that touches neither the log nor an owner. */
  lemma QuietKeepsInv(s: System, n: System, c: nat)
    requires Inv(s) && n.log == s.log && n.owners == s.owners
    requires forall d | d != c :: CpuAt(n, d) == CpuAt(s, d)
    requires CpuOk(n, c)
    requires forall h | Holds(n, c, h) :: Holds(s, c, h)
    ensures Inv(n)
  {
    forall h, d
      ensures SlotOk(n, h, d)
    {
      assert SlotOk(s, h, d);
    }
    forall d
      ensures CpuOk(n, d)
    {
      assert CpuOk(s, d);
    }
    forall d, b, h | Holds(n, d, h) && Holds(n, b, h)
      ensures d == b
    {
      assert Holds(s, d, h) && Holds(s, b, h);
    }
  }

  lemma GoKeepsInv(s: System, c: nat)
    requires Inv(s) && CpuAt(s, c) != Idle
    ensures Inv(GoStep(s, c))
  {
    var n := GoStep(s, c);
    assert CpuOk(s, c);
    match CpuAt(s, c)
    case LoadOwner(addr) =>
      var h := SlotOf(addr);
      if OwnerOf(s, h) == Locked {
        EventKeepsInv(s, n, c, NotReserved(c, h));
      } else {
        QuietKeepsInv(s, n, c);
      }
    case Steal(addr, prev) =>
      var h := SlotOf(addr);
      if OwnerOf(s, h) == prev {
        assert forall d | Holds(s, d, h) :: CpuOk(s, d);
        EventKeepsInv(s, n, c, Reserved(c, h));
      } else {
        EventKeepsInv(s, n, c, NotReserved(c, h));
      }
    case LoadMemory(_) => QuietKeepsInv(s, n, c);
    case Lock(addr, expected, value) =>
      var h := SlotOf(addr);
      if OwnerOf(s, h) == Owned(c) {
        LockKeepsInv(s, c);
      } else {
        QuietKeepsInv(s, n, c);
      }
    case Write(addr, expected, value) =>
      var h := SlotOf(addr);
      assert Holds(s, c, h);
      if Memory(s, addr) == expected {
        WriteLogged(s.log, c, addr, expected, value);
        EventKeepsInv(s, n, c, Wrote(c, h, addr, expected, value));
      } else {
        QuietKeepsInv(s, n, c);
      }
    case Unlock(addr, _) =>
      var h := SlotOf(addr);
      assert Holds(s, c, h);
      EventKeepsInv(s, n, c, Released(c, h));
  }

  lemma LockKeepsInv(s: System, c: nat)
    requires Inv(s) && CpuAt(s, c).Lock? && OwnerOf(s, SlotOf(CpuAt(s, c).addr)) == Owned(c)
    ensures Inv(GoStep(s, c))
  {
    var n, h := GoStep(s, c), SlotOf(CpuAt(s, c).addr);
    assert SlotOk(s, h, c);
    var i: nat :| ReservedAt(s.log, c, h, i);
    assert LockedAt(n.log, c, h, i, |s.log|);
    assert forall d | Holds(s, d, h) :: CpuOk(s, d);
    EventKeepsInv(s, n, c, LockTaken(c, h));
  }

  lemma StepKeepsInv(s: System, a: Act)
    requires Inv(s) && Enabled(s, a)
    ensures Inv(Step(s, a))
  {
    match a
    case StartLoad(c, _) => QuietKeepsInv(s, Step(s, a), c);
    case StartExchange(c, _, _, _) => QuietKeepsInv(s, Step(s, a), c);
    case Go(c) => GoKeepsInv(s, c);
    case PlainStore(_, _) =>
      assert CpuOk(s, 0);
      QuietKeepsInv(s, Step(s, a), 0);
  }

  // Whole runs.

  ghost predicate LegalRun(s: System, acts: seq<Act>)
    decreases |acts|
  {
    acts == [] || (Enabled(s, acts[0]) && LegalRun(Step(s, acts[0]), acts[1..]))
  }

  function Run(s: System, acts: seq<Act>): System
    requires LegalRun(s, acts)
    decreases |acts|
  {
    if acts == [] then s else Run(Step(s, acts[0]), acts[1..])
  }

  lemma {:induction false} RunKeepsInv(s: System, acts: seq<Act>)
    requires Inv(s) && LegalRun(s, acts)
    ensures Inv(Run(s, acts))
    decreases |acts|
  {
    if acts != [] {
      StepKeepsInv(s, acts[0]);
      RunKeepsInv(Step(s, acts[0]), acts[1..]);
    }
  }

  /** The step of cpu c ends its exchange with success. */
  predicate RepliesTrue(s: System, c: nat) {
    && CpuAt(s, c) != Idle && CpuAt(GoStep(s, c), c) == Idle
    && c in GoStep(s, c).replies && GoStep(s, c).replies[c] == Exchanged(true)
  }

  /**
   In every interleaving: when an exchange replies true, its cpu had reserved the slot by its last load of it,
   and until now nobody has reserved, locked or written the slot but that cpu itself, taking its lock and
   writing; nobody else is inside the slot's lock.
   */
  lemma StoreConditionalSound(acts: seq<Act>, c: nat)
    requires LegalRun(POWER_ON, acts) && RepliesTrue(Run(POWER_ON, acts), c)
    ensures var s := Run(POWER_ON, acts);
            && CpuAt(s, c).Unlock? && HasWrite(s.log, c, CpuAt(s, c).addr)
            && forall d | Holds(s, d, SlotOf(CpuAt(s, c).addr)) :: d == c
  {
    RunKeepsInv(POWER_ON, acts);
    var s := Run(POWER_ON, acts);
    assert CpuOk(s, c) && Holds(s, c, SlotOf(CpuAt(s, c).addr));
  }

  /** Steps of other cpus and plain stores. */
  predicate NotBy(acts: seq<Act>, c: nat) {
    forall a | a in acts :: a.PlainStore? || a.cpu != c
  }

  lemma StepLeaves(s: System, a: Act, c: nat)
    requires Enabled(s, a) && (a.PlainStore? || a.cpu != c)
    ensures CpuAt(Step(s, a), c) == CpuAt(s, c)
  {
  }

  lemma {:induction false} OthersLeave(s: System, acts: seq<Act>, c: nat)
    requires LegalRun(s, acts) && NotBy(acts, c)
    ensures CpuAt(Run(s, acts), c) == CpuAt(s, c)
    decreases |acts|
  {
    if acts != [] {
      assert acts[0] in acts;
      StepLeaves(s, acts[0], c);
      OthersLeave(Step(s, acts[0]), acts[1..], c);
    }
  }

  /** An exchange from its lock on, with any steps of others before its write and before its unlock. */
  ghost predicate ExchangeRun(s: System, c: nat, others: seq<Act>, later: seq<Act>) {
    && CpuAt(s, c).Lock?
    && var s1 := GoStep(s, c);
       CpuAt(s1, c).Write? ==>
         && LegalRun(s1, others) && NotBy(others, c)
         && var s2 := Run(s1, others);
            CpuAt(s2, c) != Idle && LegalRun(GoStep(s2, c), later) && NotBy(later, c)
  }

  /** The state in which the exchange has replied. */
  ghost function ExchangeDone(s: System, c: nat, others: seq<Act>, later: seq<Act>): System
    requires ExchangeRun(s, c, others, later)
  {
    var s1 := GoStep(s, c);
    if !CpuAt(s1, c).Write? then s1
    else
      var s4 := Run(GoStep(Run(s1, others), c), later);
      if CpuAt(s4, c) == Idle then s4 else GoStep(s4, c)
  }

  lemma LockStep(s: System, c: nat)
    requires Inv(s) && CpuAt(s, c).Lock?
    ensures var at, n := CpuAt(s, c), GoStep(s, c);
            if HasReservation(s.log, c, SlotOf(at.addr)) then CpuAt(n, c) == Write(at.addr, at.expected, at.value)
            else CpuAt(n, c) == Idle && c in n.replies && n.replies[c] == Exchanged(false) && n.memory == s.memory
  {
    assert SlotOk(s, SlotOf(CpuAt(s, c).addr), c);
  }

  lemma WriteStep(s: System, c: nat)
    requires CpuAt(s, c).Write?
    ensures var at := CpuAt(s, c); CpuAt(GoStep(s, c), c) == Unlock(at.addr, Memory(s, at.addr) == at.expected)
  {
  }

  lemma UnlockStep(s: System, c: nat)
    requires CpuAt(s, c).Unlock?
    ensures var n := GoStep(s, c);
            CpuAt(n, c) == Idle && c in n.replies && n.replies[c] == Exchanged(CpuAt(s, c).written)
  {
  }

  /**
   Over every interleaving: an exchange replies true if and only if the reservation of its slot is unbroken when
   it takes its lock and memory holds the expected value when it writes.
   */
  lemma ExchangeExactly(acts: seq<Act>, c: nat, others: seq<Act>, later: seq<Act>)
    requires LegalRun(POWER_ON, acts) && ExchangeRun(Run(POWER_ON, acts), c, others, later)
    ensures var s := Run(POWER_ON, acts);
            var at, n := CpuAt(s, c), ExchangeDone(s, c, others, later);
            var reserved := HasReservation(s.log, c, SlotOf(at.addr));
            && CpuAt(n, c) == Idle && c in n.replies && n.replies[c].Exchanged?
            && (reserved <==> CpuAt(GoStep(s, c), c) == Write(at.addr, at.expected, at.value))
            && (n.replies[c].written <==> reserved && Memory(Run(GoStep(s, c), others), at.addr) == at.expected)
  {
    RunKeepsInv(POWER_ON, acts);
    var s := Run(POWER_ON, acts);
    LockStep(s, c);
    var s1 := GoStep(s, c);
    if CpuAt(s1, c).Write? {
      var s2 := Run(s1, others);
      OthersLeave(s1, others, c);
      WriteStep(s2, c);
      var s4 := Run(GoStep(s2, c), later);
      OthersLeave(GoStep(s2, c), later, c);
      UnlockStep(s4, c);
    }
  }

  lemma StepLogs(s: System, a: Act)
    requires Enabled(s, a)
    ensures s.log <= Step(s, a).log
  {
  }

  lemma {:induction false} LogGrows(s: System, acts: seq<Act>)
    requires LegalRun(s, acts)
    ensures s.log <= Run(s, acts).log
    decreases |acts|
  {
    if acts != [] {
      StepLogs(s, acts[0]);
      LogGrows(Step(s, acts[0]), acts[1..]);
    }
  }

  /** Without a new load that reserves, a broken reservation stays broken. */
  lemma StaysUnreserved(s: System, acts: seq<Act>, c: nat, h: nat)
    requires LegalRun(s, acts) && !HasReservation(s.log, c, h)
    requires forall k | |s.log| <= k < |Run(s, acts).log| :: Run(s, acts).log[k] != Reserved(c, h)
    ensures !HasReservation(Run(s, acts).log, c, h)
  {
    LogGrows(s, acts);
    var log := Run(s, acts).log;
    if i: nat :| ReservedAt(log, c, h, i) {
      assert i < |s.log| && forall k | 0 <= k < |s.log| :: s.log[k] == log[k];
      assert ReservedAt(s.log, c, h, i);
    }
  }

  /** After any attempt at an exchange, another one on the slot fails unless a load of the cpu has reserved it anew. */
  lemma SecondExchangeFails(acts: seq<Act>, c: nat, rest: seq<Act>)
    requires LegalRun(POWER_ON, acts) && CpuAt(Run(POWER_ON, acts), c).Lock?
    requires LegalRun(GoStep(Run(POWER_ON, acts), c), rest)
    requires var s1 := GoStep(Run(POWER_ON, acts), c);
             var s2, h := Run(s1, rest), SlotOf(CpuAt(Run(POWER_ON, acts), c).addr);
             && CpuAt(s2, c).Lock? && SlotOf(CpuAt(s2, c).addr) == h
             && forall k | |s1.log| <= k < |s2.log| :: s2.log[k] != Reserved(c, h)
    ensures var s2 := Run(GoStep(Run(POWER_ON, acts), c), rest);
            var n := GoStep(s2, c);
            CpuAt(n, c) == Idle && c in n.replies && n.replies[c] == Exchanged(false) && n.memory == s2.memory
  {
    var s := Run(POWER_ON, acts);
    var s1, h := GoStep(s, c), SlotOf(CpuAt(s, c).addr);
    var s2 := Run(s1, rest);
    RunKeepsInv(POWER_ON, acts);
    GoKeepsInv(s, c);
    RunKeepsInv(s1, rest);
    assert SlotOk(s1, h, c);
    StaysUnreserved(s1, rest, c, h);
    LockStep(s2, c);
  }

  // Plain stores.

  /** What plain stores to addr leave there. */
  function LastStored(acts: seq<Act>, addr: nat, before: nat): nat {
    if acts == [] then before
    else LastStored(acts[1..], addr, if acts[0].PlainStore? && acts[0].addr == addr then acts[0].value else before)
  }

  predicate Stored(acts: seq<Act>, addr: nat) {
    exists a | a in acts :: a.PlainStore? && a.addr == addr
  }

  predicate WritesSlot(e: Event, slot: nat) {
    e.Wrote? && e.slot == slot
  }

  lemma StepStores(s: System, a: Act, addr: nat)
    requires Enabled(s, a)
    ensures var n := Step(s, a);
            || Memory(n, addr) == LastStored([a], addr, Memory(s, addr))
            || (|s.log| < |n.log| && WritesSlot(n.log[|s.log|], SlotOf(addr)))
  {
    assert [a][1..] == [];
    assert LastStored([a], addr, Memory(s, addr)) ==
           if a.PlainStore? && a.addr == addr then a.value else Memory(s, addr);
  }

  /** While no exchange writes to a slot, its memory is changed by plain stores only. */
  lemma {:induction false} MemoryByStores(s: System, acts: seq<Act>, addr: nat)
    requires LegalRun(s, acts)
    requires forall k | |s.log| <= k < |Run(s, acts).log| :: !WritesSlot(Run(s, acts).log[k], SlotOf(addr))
    ensures Memory(Run(s, acts), addr) == LastStored(acts, addr, Memory(s, addr))
    decreases |acts|
  {
    if acts != [] {
      var n, rest := Step(s, acts[0]), acts[1..];
      StepLogs(s, acts[0]);
      LogGrows(n, rest);
      StepStores(s, acts[0], addr);
      assert Run(s, acts) == Run(n, rest);
      assert forall k | 0 <= k < |n.log| :: n.log[k] == Run(n, rest).log[k];
      forall k | |n.log| <= k < |Run(n, rest).log| ensures !WritesSlot(Run(n, rest).log[k], SlotOf(addr)) {
        assert |s.log| <= k < |Run(s, acts).log|;
      }
      assert [acts[0]][1..] == [];
      MemoryByStores(n, rest, addr);
    }
  }

  /**
   Section 8.2 of the RISC-V unprivileged specification wants a store-conditional to fail after another hart's
   store to the reserved bytes. In every interleaving: an exchange of the value its cpu's last load of the slot
   has read, once it has its lock, writes if and only if the last of any number of plain stores to the address
   since that load has left the same value there. So it fails after plain stores, as it should, exactly unless
   they have undone one another.
   */
  lemma PlainStoresSeenByValueOnly(acts: seq<Act>, c: nat, since: seq<Act>)
    requires LegalRun(POWER_ON, acts) && CpuAt(Run(POWER_ON, acts), c).LoadMemory?
    requires LegalRun(Run(POWER_ON, acts), since)
    requires var s, n := Run(POWER_ON, acts), Run(Run(POWER_ON, acts), since);
             var addr := CpuAt(s, c).addr;
             && CpuAt(n, c).Write? && CpuAt(n, c).addr == addr && CpuAt(n, c).expected == Memory(s, addr)
             && forall k | |s.log| <= k < |n.log| :: n.log[k] != Reserved(c, SlotOf(addr))
    ensures var s, n := Run(POWER_ON, acts), Run(Run(POWER_ON, acts), since);
            var addr := CpuAt(s, c).addr;
            var undone := LastStored(since, addr, Memory(s, addr)) == Memory(s, addr);
            && CpuAt(GoStep(n, c), c) == Unlock(addr, undone)
            && ((Stored(since, addr) ==> CpuAt(GoStep(n, c), c) == Unlock(addr, false)) <==>
                !(Stored(since, addr) && undone))
  {
    var s := Run(POWER_ON, acts);
    var n, addr := Run(s, since), CpuAt(s, c).addr;
    RunKeepsInv(POWER_ON, acts);
    RunKeepsInv(s, since);
    LogGrows(s, since);
    assert CpuOk(n, c);
    var i: nat, j: nat :| LockedAt(n.log, c, SlotOf(addr), i, j);
    forall k | |s.log| <= k < |n.log|
      ensures !WritesSlot(n.log[k], SlotOf(addr))
    {
      assert i < |s.log|;
      assert i < k < j ==> !Breaks(n.log[k], c, SlotOf(addr));
    }
    MemoryByStores(s, since, addr);
  }

  /** ReservationLoad with nobody in between. */
  function LoadAlone(s: System, c: nat, addr: nat): System
    requires CpuAt(s, c) == Idle
  {
    var s1 := GoStep(Move(s, c, LoadOwner(addr)), c);
    if CpuAt(s1, c).Steal? then GoStep(GoStep(s1, c), c) else GoStep(s1, c)
  }

  /** ReservationExchange with nobody in between. */
  function ExchangeAlone(s: System, c: nat, addr: nat, expected: nat, value: nat): System
    requires CpuAt(s, c) == Idle
  {
    var s1 := GoStep(Move(s, c, Lock(addr, expected, value)), c);
    if CpuAt(s1, c).Write? then GoStep(GoStep(s1, c), c) else s1
  }

  predicate Succeeded(s: System, c: nat) {
    c in s.replies && s.replies[c] == Exchanged(true)
  }

  /** The store happens exactly when the cpu still owns the slot and memory holds what it expects. */
  lemma ExchangeExact(s: System, c: nat, addr: nat, expected: nat, value: nat)
    requires CpuAt(s, c) == Idle
    ensures var n := ExchangeAlone(s, c, addr, expected, value);
            && (Succeeded(n, c) <==> OwnerOf(s, SlotOf(addr)) == Owned(c) && Memory(s, addr) == expected)
            && (forall a :: Memory(n, a) == if a == addr && Succeeded(n, c) then value else Memory(s, a))
            && OwnerOf(n, SlotOf(addr)) != Owned(c)
            && CpuAt(n, c) == Idle
  {
  }

  /** Nobody holding the slot, a load and an exchange of the loaded value succeed. */
  lemma LoadThenExchange(s: System, c: nat, addr: nat, value: nat)
    requires CpuAt(s, c) == Idle && OwnerOf(s, SlotOf(addr)) != Locked
    ensures var s1 := LoadAlone(s, c, addr);
            && CpuAt(s1, c) == Idle && c in s1.replies && s1.replies[c] == Loaded(Memory(s, addr))
            && Succeeded(ExchangeAlone(s1, c, addr, Memory(s, addr), value), c)
  {
    ExchangeExact(LoadAlone(s, c, addr), c, addr, Memory(s, addr), value);
  }

  /** What a load with nobody in between leaves. */
  lemma LoadFields(s: System, c: nat, addr: nat)
    requires CpuAt(s, c) == Idle
    ensures var n, h := LoadAlone(s, c, addr), SlotOf(addr);
            && n.memory == s.memory && CpuAt(n, c) == Idle && c in n.replies && n.replies[c] == Loaded(Memory(s, addr))
            && forall g :: OwnerOf(n, g) == if g == h && OwnerOf(s, h) != Locked then Owned(c) else OwnerOf(s, g)
  {
  }

  /** A store that has been undone goes unnoticed: cpu 0 loads address 8, then 5 and 0 are stored there. */
  lemma UndoneStoreExample()
    ensures var s1 := LoadAlone(POWER_ON, 0, 8);
            && CpuAt(s1, 0) == Idle
            && var s2 := Step(Step(s1, PlainStore(8, 5)), PlainStore(8, 0));
               CpuAt(s2, 0) == Idle && Succeeded(ExchangeAlone(s2, 0, 8, 0, 1), 0)
  {
    LoadFields(POWER_ON, 0, 8);
    var s1 := LoadAlone(POWER_ON, 0, 8);
    var s2 := Step(Step(s1, PlainStore(8, 5)), PlainStore(8, 0));
    ExchangeExact(s2, 0, 8, 0, 1);
  }
}
