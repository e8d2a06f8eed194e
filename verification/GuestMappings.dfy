/**
 The guest's mmap, munmap, mprotect and mremap, next to the mappings a kernel that ran the guest itself would
 keep. The shadow stands in for the execute permission, which is never passed to the host.
 */
module GuestMappings {
  import opened Pages
  import opened Shadow
  import opened SysMman

  datatype Prot = Prot(r: bool, w: bool, x: bool)

  /** Guest code is read by the translator, never executed by the host. */
  function ToHostProt(p: Prot): (h: Prot)
    ensures !h.x && h.w == p.w && (h.r <==> p.r || p.x)
  {
    if p.x then p.(x := false, r := true) else p
  }

  /** Mapped pages, and whether the guest may execute them. */
  type Mappings = map<nat, bool>

  function ExecPages(m: Mappings): set<nat> {
    set p | p in m && m[p]
  }

  ghost predicate Agree(m: Mappings, exec: set<nat>) {
    forall p: nat :: p in exec <==> p in m && m[p]
  }

  /**
   A call together with the host's answer. `guarded` ranges are protected from guest mprotect; `changed` are the
   pages the host has changed, which can be some even if it refuses.
   */
  datatype Call =
    | Mmap(addr: nat, size: nat, x: bool)
    | Munmap(addr: nat, size: nat, ok: bool)
    | Mprotect(addr: nat, size: nat, x: bool, guarded: bool, ok: bool, changed: set<nat>)
    | Mremap(oldAddr: nat, oldSize: nat, newSize: nat, fixed: bool, addr: nat)

  /** What the host guarantees of a call that succeeds. */
  predicate HostGrants(m: Mappings, c: Call) {
    match c
    case Mmap(addr, size, _) => Aligned(addr) && addr + size <= MAX_GUEST_ADDRESS + 1
    case Munmap(addr, _, ok) => ok ==> Aligned(addr)
    case Mprotect(addr, size, _, _, ok, changed) =>
      && changed <= PagesOf(addr, size) && changed <= Mappable(m.Keys)
      && (ok ==> Aligned(addr) && changed == PagesOf(addr, size))
    case Mremap(oldAddr, oldSize, newSize, fixed, addr) =>
      KernelMremap(oldAddr, oldSize, newSize, fixed, addr) && PagesOf(oldAddr, oldSize) <= m.Keys
  }

  function SetPages(m: Mappings, pages: set<nat>, x: bool): Mappings {
    m + map p | p in pages :: x
  }

  /** A page after mremap: moved from its source, gone, or as it was. */
  ghost function Moved(m: Mappings, oldAddr: nat, oldSize: nat, addr: nat, newSize: nat): Mappings
    requires PagesOf(oldAddr, oldSize) <= m.Keys && 0 < oldSize && Aligned(oldAddr) && Aligned(addr)
  {
    map p | p in PagesOf(addr, newSize) + (m.Keys - PagesOf(oldAddr, oldSize)) ::
      if p in PagesOf(addr, newSize) then
        AlignedPages(addr, newSize, p);
        SourceInRegion(oldAddr, oldSize, addr, p);
        m[Source(oldAddr, oldSize, addr, p)]
      else m[p]
  }

  lemma SourceInRegion(oldAddr: nat, oldSize: nat, addr: nat, p: nat)
    requires addr / PAGE <= p && 0 < oldSize && Aligned(oldAddr)
    ensures Source(oldAddr, oldSize, addr, p) in PagesOf(oldAddr, oldSize)
  {
    AlignedPages(oldAddr, oldSize, oldAddr / PAGE);
  }

  /** The mappings after the call, as the guest should see them. */
  ghost function Native(m: Mappings, c: Call): Mappings
    requires HostGrants(m, c)
  {
    match c
    case Mmap(addr, size, x) => SetPages(m, PagesOf(addr, size), x)
    case Munmap(addr, size, ok) => if ok then m - PagesOf(addr, size) else m
    case Mprotect(_, _, x, guarded, _, changed) => if guarded then m else SetPages(m, changed, x)
    case Mremap(oldAddr, oldSize, newSize, fixed, addr) =>
      if MayRemap(ExecPages(m), oldAddr, oldSize, newSize, fixed) then Moved(m, oldAddr, oldSize, addr, newSize) else m
  }

  function Updated(exec: set<nat>, addr: nat, size: nat, x: bool): set<nat> {
    if x then exec + Mappable(PagesOf(addr, size)) else exec - PagesOf(addr, size)
  }

  /** The shadow after the call. */
  function After(exec: set<nat>, c: Call): set<nat> {
    match c
    case Mmap(addr, size, x) => Updated(exec, addr, size, x)
    case Munmap(addr, size, _) => exec - PagesOf(addr, size)
    case Mprotect(addr, size, x, guarded, _, _) => if guarded then exec else Updated(exec, addr, size, x)
    case Mremap(oldAddr, oldSize, newSize, fixed, addr) =>
      if MayRemap(exec, oldAddr, oldSize, newSize, fixed) then Remapped(exec, oldAddr, oldSize, addr, newSize) else exec
  }

  /** The pages have the bit already; pages past the shadow have none to set. */
  ghost predicate HasBit(exec: set<nat>, pages: set<nat>, x: bool) {
    forall p | p in pages :: if x then p in exec || PAGE_COUNT <= p else p !in exec
  }

  /**
   The shadow is updated before the host is asked to unmap or protect, and stays so when the host refuses:
   such a call does harm when a page the host left alone did not have the requested bit.
   */
  ghost predicate Harmful(exec: set<nat>, c: Call) {
    match c
    case Munmap(addr, size, ok) => !ok && !HasBit(exec, PagesOf(addr, size), false)
    case Mprotect(addr, size, x, guarded, _, changed) => !guarded && !HasBit(exec, PagesOf(addr, size) - changed, x)
    case _ => false
  }

  /** Changing some pages of a range as the shadow changes all of them keeps agreement if the rest had the bit. */
  lemma UpdateAgreesExactly(m: Mappings, exec: set<nat>, addr: nat, size: nat, x: bool, changed: set<nat>)
    requires Agree(m, exec) && changed <= PagesOf(addr, size) && changed <= Mappable(m.Keys)
    ensures Agree(SetPages(m, changed, x), Updated(exec, addr, size, x)) <==>
            HasBit(exec, PagesOf(addr, size) - changed, x)
  {
    var n, after, rest := SetPages(m, changed, x), Updated(exec, addr, size, x), PagesOf(addr, size) - changed;
    forall p: nat
      ensures (p in after <==> p in n && n[p]) <==>
              (p in rest ==> if x then p in exec || PAGE_COUNT <= p else p !in exec)
    {
      assert p in exec <==> p in m && m[p];
      assert p in changed ==> p < PAGE_COUNT;
    }
  }

  lemma AllMappable(addr: nat, size: nat)
    requires Aligned(addr) && addr + size <= MAX_GUEST_ADDRESS + 1
    ensures Mappable(PagesOf(addr, size)) == PagesOf(addr, size)
  {
    forall p | p in PagesOf(addr, size) ensures p < PAGE_COUNT {
      AlignMonotone(addr + size, MAX_GUEST_ADDRESS + 1);
    }
  }

  lemma MremapAgrees(m: Mappings, exec: set<nat>, c: Call)
    requires Agree(m, exec) && c.Mremap? && HostGrants(m, c) && MayRemap(exec, c.oldAddr, c.oldSize, c.newSize, c.fixed)
    ensures Agree(Moved(m, c.oldAddr, c.oldSize, c.addr, c.newSize),
                  Remapped(exec, c.oldAddr, c.oldSize, c.addr, c.newSize))
  {
    var n := Moved(m, c.oldAddr, c.oldSize, c.addr, c.newSize);
    var after := Remapped(exec, c.oldAddr, c.oldSize, c.addr, c.newSize);
    MremapFollowsPages(exec, c.oldAddr, c.oldSize, c.newSize, c.fixed, c.addr);
    forall p: nat ensures p in after <==> p in n && n[p] {
      assert FollowsPage(exec, after, c.oldAddr, c.oldSize, c.addr, c.newSize, p);
      if p in PagesOf(c.addr, c.newSize) {
        SourceInRegion(c.oldAddr, c.oldSize, c.addr, p);
      }
    }
  }

  /** A call keeps the shadow in agreement with the guest's mappings if and only if it is not a harmful failure. */
  lemma AgreesExactly(m: Mappings, exec: set<nat>, c: Call)
    requires Agree(m, exec) && HostGrants(m, c)
    ensures Agree(Native(m, c), After(exec, c)) <==> !Harmful(exec, c)
  {
    assert ExecPages(m) == exec;
    match c
    case Mmap(addr, size, _) => AllMappable(addr, size);
    case Munmap(addr, size, ok) => UnmapAgrees(m, exec, c);
    case Mprotect(addr, size, x, guarded, ok, changed) => UpdateAgreesExactly(m, exec, addr, size, x, changed);
    case Mremap(_, _, _, _, _) =>
      if MayRemap(exec, c.oldAddr, c.oldSize, c.newSize, c.fixed) {
        MremapAgrees(m, exec, c);
      }
  }

  lemma UnmapAgrees(m: Mappings, exec: set<nat>, c: Call)
    requires Agree(m, exec) && HostGrants(m, c) && c.Munmap?
    ensures Agree(Native(m, c), After(exec, c)) <==> !Harmful(exec, c)
  {
    if !c.ok {
      UpdateAgreesExactly(m, exec, c.addr, c.size, false, {});
      assert PagesOf(c.addr, c.size) - {} == PagesOf(c.addr, c.size) && SetPages(m, {}, false) == m;
    }
  }

  /** Requests the kernel does not refuse: aligned, for munmap not empty, for mprotect on mapped pages only. */
  predicate Acceptable(m: Mappings, c: Call)
    requires c.Munmap? || c.Mprotect?
  {
    match c
    case Munmap(addr, size, _) => Aligned(addr) && 0 < size
    case Mprotect(addr, size, _, _, _, _) => Aligned(addr) && PagesOf(addr, size) <= Mappable(m.Keys)
  }

  /** The pages of the range before its first hole: mprotect changes them one mapping at a time. */
  ghost function BeforeHole(m: Mappings, addr: nat, size: nat): set<nat> {
    set p | p in PagesOf(addr, size) && MappedUpTo(m, addr, size, p)
  }

  ghost predicate MappedUpTo(m: Mappings, addr: nat, size: nat, p: nat) {
    forall q | q in PagesOf(addr, size) && q <= p :: q in m && q < PAGE_COUNT
  }

  /** What Linux does with a munmap or mprotect request. */
  ghost predicate LinuxAnswers(m: Mappings, c: Call)
    requires c.Munmap? || c.Mprotect?
  {
    && c.ok == Acceptable(m, c)
    && (c.Mprotect? ==> c.changed == if Aligned(c.addr) then BeforeHole(m, c.addr, c.size) else {})
  }

  /**
   What a caller can tell before the call. A munmap keeps the shadow in agreement if and only if it is aligned and
   not empty, or touches no executable page. An mprotect does if and only if it is guarded, or every page from the
   first hole on, or every page at all of an unaligned range, has the requested bit already.
   */
  lemma AgreesByRequest(m: Mappings, exec: set<nat>, c: Call)
    requires Agree(m, exec) && (c.Munmap? || c.Mprotect?) && LinuxAnswers(m, c)
    ensures HostGrants(m, c)
    ensures Agree(Native(m, c), After(exec, c)) <==>
            match c
            case Munmap(addr, size, _) => (Aligned(addr) && 0 < size) || PagesOf(addr, size) !! exec
            case Mprotect(addr, size, x, guarded, _, _) =>
              || guarded
              || HasBit(exec, PagesOf(addr, size) - (if Aligned(addr) then BeforeHole(m, addr, size) else {}), x)
            case _ => true
  {
    if c.Mprotect? && Aligned(c.addr) {
      forall p | p in BeforeHole(m, c.addr, c.size) ensures p in Mappable(m.Keys) {
        assert MappedUpTo(m, c.addr, c.size, p);
      }
      if c.ok {
        forall p | p in PagesOf(c.addr, c.size) ensures p in BeforeHole(m, c.addr, c.size) {
          assert MappedUpTo(m, c.addr, c.size, p);
        }
        assert c.changed == PagesOf(c.addr, c.size);
      }
    }
    AgreesExactly(m, exec, c);
  }

  // ---------------------------------------------------------------------------------------------- runs

  ghost predicate LegalRun(m: Mappings, calls: seq<Call>)
    decreases |calls|
  {
    calls == [] || (HostGrants(m, calls[0]) && LegalRun(Native(m, calls[0]), calls[1..]))
  }

  ghost function RunNative(m: Mappings, calls: seq<Call>): Mappings
    requires LegalRun(m, calls)
    decreases |calls|
  {
    if calls == [] then m else RunNative(Native(m, calls[0]), calls[1..])
  }

  function RunShadow(exec: set<nat>, calls: seq<Call>): set<nat>
    decreases |calls|
  {
    if calls == [] then exec else RunShadow(After(exec, calls[0]), calls[1..])
  }

  ghost predicate Harmless(exec: set<nat>, calls: seq<Call>)
    decreases |calls|
  {
    calls == [] || (!Harmful(exec, calls[0]) && Harmless(After(exec, calls[0]), calls[1..]))
  }

  /** The shadow agrees with the mappings before the first call and after each. */
  ghost predicate AgreesThroughout(m: Mappings, exec: set<nat>, calls: seq<Call>)
    requires LegalRun(m, calls)
    decreases |calls|
  {
    Agree(m, exec) && (calls != [] ==> AgreesThroughout(Native(m, calls[0]), After(exec, calls[0]), calls[1..]))
  }

  /** A page is executable in the shadow exactly if it is for the guest, all along, in exactly the harmless runs. */
  lemma {:induction false} ShadowFollowsMappings(m: Mappings, exec: set<nat>, calls: seq<Call>)
    requires Agree(m, exec) && LegalRun(m, calls)
    ensures AgreesThroughout(m, exec, calls) <==> Harmless(exec, calls)
    ensures Harmless(exec, calls) ==> Agree(RunNative(m, calls), RunShadow(exec, calls))
    decreases |calls|
  {
    if calls != [] {
      AgreesExactly(m, exec, calls[0]);
      if !Harmful(exec, calls[0]) {
        ShadowFollowsMappings(Native(m, calls[0]), After(exec, calls[0]), calls[1..]);
      }
    }
  }

  /** A failing mprotect of an unmapped page leaves the page executable in the shadow. */
  lemma FailedProtectExample()
    ensures var c := Mprotect(PAGE, PAGE, true, false, false, {});
            HostGrants(map[], c) && 1 in After({}, c) && !Agree(Native(map[], c), After({}, c))
  {
    AlignedPages(PAGE, PAGE, 1);
  }

  // ---------------------------------------------------------------------------------------------- the calls

  method UpdateGuestProt(shadow: GuestMapShadow, x: bool, addr: nat, size: nat)
    requires shadow.Valid()
    modifies shadow.shadow, shadow.cache
    ensures shadow.Valid() && shadow.Exec() == Updated(old(shadow.Exec()), addr, size, x)
  {
    if x {
      shadow.SetExecutable(addr, size);
    } else {
      shadow.ClearExecutable(addr, size);
    }
  }

  method MmapForGuest(shadow: GuestMapShadow, size: nat, x: bool, host: MapResult) returns (r: MapResult)
    requires shadow.Valid()
    modifies shadow.shadow, shadow.cache
    ensures shadow.Valid() && r == host
    ensures shadow.Exec() == if host.Mapped? then After(old(shadow.Exec()), Mmap(host.addr, size, x))
                             else old(shadow.Exec())
  {
    r := host;
    if r.Mapped? {
      UpdateGuestProt(shadow, x, r.addr, size);
    }
  }

  method MunmapForGuest(shadow: GuestMapShadow, addr: nat, size: nat, hostOk: bool) returns (ok: bool)
    requires shadow.Valid()
    modifies shadow.shadow, shadow.cache
    ensures shadow.Valid() && ok == hostOk && shadow.Exec() == After(old(shadow.Exec()), Munmap(addr, size, hostOk))
  {
    shadow.ClearExecutable(addr, size);
    ok := hostOk;
  }

  method MprotectForGuest(shadow: GuestMapShadow, addr: nat, size: nat, x: bool, guarded: bool, hostOk: bool)
    returns (ok: bool)
    requires shadow.Valid()
    modifies shadow.shadow, shadow.cache
    ensures shadow.Valid() && (ok <==> !guarded && hostOk)
    ensures shadow.Exec() == if guarded then old(shadow.Exec()) else Updated(old(shadow.Exec()), addr, size, x)
  {
    if guarded {
      return false;
    }
    UpdateGuestProt(shadow, x, addr, size);
    ok := hostOk;
  }
}
