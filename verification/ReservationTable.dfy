/** The owner table and guest memory as the program has them, updated in place by one cpu at a time. */
module ReservationTable {
  import opened Reservation
  import GuestReservation

  lemma ExchangeFields(s: System, c: nat, addr: nat, expected: nat, value: nat)
    requires CpuAt(s, c) == Idle
    ensures var n, h := ExchangeAlone(s, c, addr, expected, value), SlotOf(addr);
            var owned := OwnerOf(s, h) == Owned(c);
            && n.memory == (if owned && Memory(s, addr) == expected then s.memory[addr := value] else s.memory)
            && (Succeeded(n, c) <==> owned && Memory(s, addr) == expected)
            && forall g :: OwnerOf(n, g) == if owned && g == h then Free else OwnerOf(s, g)
  {
  }

  /** The two fields of the guest cpu state. */
  class CpuState {
    const id: nat
    var reservationAddress: nat
    var reservationValue: nat

    constructor (i: nat)
      ensures id == i && reservationAddress == 0 && reservationValue == 0
    {
      id, reservationAddress, reservationValue := i, 0, 0;
    }
  }

  class MemoryRegionReservation {
    const owners: array<Owner>
    var memory: map<nat, nat>

    ghost predicate Valid()
      reads this
    {
      owners.Length == HASH_SIZE
    }

    /** The fields hold the owners and the memory of the system state. */
    ghost predicate Represents(s: System)
      requires Valid()
      reads this, owners
    {
      memory == s.memory && forall h | 0 <= h < HASH_SIZE :: owners[h] == OwnerOf(s, h)
    }

    constructor ()
      ensures Valid() && fresh(owners) && Represents(POWER_ON)
    {
      owners := new Owner[HASH_SIZE](_ => Free);
      memory := map[];
    }

    method CompareExchange(h: nat, expected: Owner, desired: Owner) returns (ok: bool)
      requires Valid() && h < HASH_SIZE
      modifies owners
      ensures ok == (old(owners[h]) == expected)
      ensures owners[..] == if ok then old(owners[..])[h := desired] else old(owners[..])
    {
      ok := owners[h] == expected;
      if ok {
        owners[h] := desired;
      }
    }

    method SetOwner(addr: nat, cpu: nat)
      requires Valid()
      modifies owners
      ensures owners[..] == if old(owners[SlotOf(addr)]) == Locked then old(owners[..])
                            else old(owners[..])[SlotOf(addr) := Owned(cpu)]
    {
      var prev := owners[SlotOf(addr)];
      if prev != Locked {
        var _ := CompareExchange(SlotOf(addr), prev, Owned(cpu));
      }
    }

    method TryLock(addr: nat, cpu: nat) returns (ok: bool)
      requires Valid()
      modifies owners
      ensures ok == (old(owners[SlotOf(addr)]) == Owned(cpu))
      ensures owners[..] == if ok then old(owners[..])[SlotOf(addr) := Locked] else old(owners[..])
    {
      ok := CompareExchange(SlotOf(addr), Owned(cpu), Locked);
    }

    method ReservationLoad(cpu: nat, addr: nat, ghost s: System) returns (value: nat)
      requires Valid() && Represents(s) && CpuAt(s, cpu) == Idle
      modifies owners
      ensures Represents(LoadAlone(s, cpu, addr))
      ensures LoadAlone(s, cpu, addr).replies[cpu] == Loaded(value)
    {
      LoadFields(s, cpu, addr);
      SetOwner(addr, cpu);
      value := if addr in memory then memory[addr] else 0;
      assert forall h | 0 <= h < HASH_SIZE :: owners[h] == owners[..][h];
    }

    method ReservationExchange(cpu: nat, addr: nat, expected: nat, value: nat, ghost s: System) returns (written: bool)
      requires Valid() && Represents(s) && CpuAt(s, cpu) == Idle
      modifies owners, this`memory
      ensures Represents(ExchangeAlone(s, cpu, addr, expected, value))
      ensures written == Succeeded(ExchangeAlone(s, cpu, addr, expected, value), cpu)
    {
      ExchangeFields(s, cpu, addr, expected, value);
      ghost var n, was := ExchangeAlone(s, cpu, addr, expected, value), owners[..];
      var ok := TryLock(addr, cpu);
      assert forall h | 0 <= h < HASH_SIZE :: owners[h] == owners[..][h] && was[h] == OwnerOf(s, h);
      if !ok {
        return false;
      }
      written := (if addr in memory then memory[addr] else 0) == expected;
      if written {
        memory := memory[addr := value];
      }
      owners[SlotOf(addr)] := Free;
    }

    /** Returns the previously reserved address. */
    method Clear(cpu: CpuState) returns (previous: nat)
      modifies cpu`reservationAddress
      ensures previous == old(cpu.reservationAddress) && cpu.reservationAddress == 0
    {
      previous := cpu.reservationAddress;
      cpu.reservationAddress := 0;
    }

    method Load(cpu: CpuState, addr: nat, ghost s: System) returns (region: nat)
      requires Valid() && Represents(s) && CpuAt(s, cpu.id) == Idle
      modifies owners, cpu
      ensures var a := GuestReservation.Region(addr);
              && Represents(LoadAlone(s, cpu.id, a)) && LoadAlone(s, cpu.id, a).replies[cpu.id] == Loaded(region)
              && cpu.reservationAddress == a && cpu.reservationValue == region
    {
      var aligned := addr - addr % REGION;
      cpu.reservationAddress := aligned;
      region := ReservationLoad(cpu.id, aligned, s);
      cpu.reservationValue := region;
    }

    /** `embed` puts the bytes to store into the value of the region. */
    method Store(cpu: CpuState, addr: nat, embed: nat -> nat, ghost s: System) returns (written: bool)
      requires Valid() && Represents(s) && CpuAt(s, cpu.id) == Idle
      modifies owners, this`memory, cpu`reservationAddress
      ensures cpu.reservationAddress == 0
      ensures var a, was := GuestReservation.Region(addr), cpu.reservationValue;
              if old(cpu.reservationAddress) != a then Represents(s) && !written
              else
                && Represents(ExchangeAlone(s, cpu.id, a, was, embed(was)))
                && written == Succeeded(ExchangeAlone(s, cpu.id, a, was, embed(was)), cpu.id)
    {
      var reserved := Clear(cpu);
      var aligned := addr - addr % REGION;
      if aligned != reserved {
        return false;
      }
      written := ReservationExchange(cpu.id, aligned, cpu.reservationValue, embed(cpu.reservationValue), s);
    }
  }
}
