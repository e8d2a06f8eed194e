/**
 Guest mremap over an abstract kernel: the host call's result is a parameter. The shadow has to follow
 the mapping page by page.
 */
module SysMman {
  import opened Pages
  import opened Shadow

  datatype MapResult = Mapped(addr: nat) | Failed | Refused

  /**
   What the kernel grants about a successful mremap: page-aligned and non-empty regions inside the guest
   address space, moved only to where they do not overlap, and shrunk in place unless told where to go.
   */
  predicate KernelMremap(oldAddr: nat, oldSize: nat, newSize: nat, fixed: bool, addr: nat) {
    && Aligned(oldAddr) && Aligned(addr) && 0 < oldSize && 0 < newSize
    && (addr == oldAddr || oldAddr + oldSize <= addr || addr + newSize <= oldAddr)
    && (newSize <= oldSize && !fixed ==> addr == oldAddr)
    && addr + newSize <= MAX_GUEST_ADDRESS + 1
  }

  /** The permission check made before the host call. */
  predicate MayRemap(exec: set<nat>, oldAddr: nat, oldSize: nat, newSize: nat, fixed: bool) {
    if newSize <= oldSize
    then fixed && 0 < newSize ==> CommonBit(exec, PagesOf(oldAddr, newSize)) != BitMixed
    else 0 < oldSize ==> CommonBit(exec, PagesOf(oldAddr, oldSize)) != BitMixed
  }

  /** Some page of the range is executable and some is not. */
  ghost predicate Mixed(exec: set<nat>, addr: nat, size: nat) {
    exists p, q :: p in PagesOf(addr, size) && q in PagesOf(addr, size) && p in exec && q !in exec
  }

  /** What of the old region goes on existing elsewhere, or decides about new pages. */
  function Checked(oldSize: nat, newSize: nat, fixed: bool): nat {
    if oldSize < newSize then oldSize else if fixed then newSize else 0
  }

  /** The check refuses exactly a region whose pages differ, where that matters. */
  lemma MayRemapExactly(exec: set<nat>, oldAddr: nat, oldSize: nat, newSize: nat, fixed: bool)
    ensures MayRemap(exec, oldAddr, oldSize, newSize, fixed) <==>
            !Mixed(exec, oldAddr, Checked(oldSize, newSize, fixed))
  {
    OnePageAtMost(oldAddr);
  }

  lemma OnePageAtMost(addr: nat)
    ensures forall p, q | p in PagesOf(addr, 0) && q in PagesOf(addr, 0) :: p == q
  {
    AlignFacts(addr);
  }

  /** `host` is what the host mremap returns if it is called, Failed for MAP_FAILED; Refused is EFAULT. */
  method MremapForGuest(shadow: GuestMapShadow, oldAddr: nat, oldSize: nat, newSize: nat, fixed: bool, host: MapResult)
    returns (r: MapResult)
    requires shadow.Valid() && host != Refused
    requires host.Mapped? ==> KernelMremap(oldAddr, oldSize, newSize, fixed, host.addr)
    modifies shadow.shadow, shadow.cache
    ensures shadow.Valid()
    ensures r == if MayRemap(old(shadow.Exec()), oldAddr, oldSize, newSize, fixed) then host else Refused
    ensures r == Refused <==> Mixed(old(shadow.Exec()), oldAddr, Checked(oldSize, newSize, fixed))
    ensures r.Mapped? ==> shadow.Exec() == Remapped(old(shadow.Exec()), oldAddr, oldSize, r.addr, newSize)
    ensures r.Mapped? ==> FollowsPages(old(shadow.Exec()), shadow.Exec(), oldAddr, oldSize, r.addr, newSize)
    ensures !r.Mapped? ==> shadow.Exec() == old(shadow.Exec()) && shadow.cache.State() == old(shadow.cache.State())
  {
    MayRemapExactly(shadow.Exec(), oldAddr, oldSize, newSize, fixed);
    if newSize <= oldSize {
      if fixed {
        var v := shadow.GetExecutable(oldAddr, newSize);
        if v == BitMixed {
          return Refused;
        }
      }
    } else {
      var v := shadow.GetExecutable(oldAddr, oldSize);
      if v == BitMixed {
        return Refused;
      }
    }
    r := host;
    if r.Mapped? {
      MremapFollowsPages(shadow.Exec(), oldAddr, oldSize, newSize, fixed, r.addr);
      shadow.RemapExecutable(oldAddr, oldSize, r.addr, newSize);
    }
  }

  /** The old page a new page comes from; pages past the old region come from its first page. */
  function Source(oldAddr: nat, oldSize: nat, addr: nat, p: nat): nat
    requires addr / PAGE <= p
  {
    var k := p - addr / PAGE;
    if oldAddr / PAGE + k in PagesOf(oldAddr, oldSize) then oldAddr / PAGE + k else oldAddr / PAGE
  }

  /**
   A kept page has its source page's bit, an added page the bit of the old region, a vacated page is
   cleared, and any other page is unchanged.
   */
  ghost predicate FollowsPage(before: set<nat>, after: set<nat>, oldAddr: nat, oldSize: nat, addr: nat, newSize: nat,
                              p: nat) {
    if p in PagesOf(addr, newSize) then
      addr / PAGE <= p && (p in after <==> Source(oldAddr, oldSize, addr, p) in before)
    else if p in PagesOf(oldAddr, oldSize) then p !in after
    else p in after <==> p in before
  }

  ghost predicate FollowsPages(before: set<nat>, after: set<nat>, oldAddr: nat, oldSize: nat, addr: nat, newSize: nat) {
    forall p: nat :: FollowsPage(before, after, oldAddr, oldSize, addr, newSize, p)
  }

  lemma MremapFollowsPages(exec: set<nat>, oldAddr: nat, oldSize: nat, newSize: nat, fixed: bool, addr: nat)
    requires KernelMremap(oldAddr, oldSize, newSize, fixed, addr)
    requires MayRemap(exec, oldAddr, oldSize, newSize, fixed)
    ensures FollowsPages(exec, Remapped(exec, oldAddr, oldSize, addr, newSize), oldAddr, oldSize, addr, newSize)
  {
    if addr == oldAddr {
      ResizeFollowsPages(exec, oldAddr, oldSize, newSize, fixed);
    } else {
      MoveFollowsPages(exec, oldAddr, oldSize, newSize, fixed, addr);
    }
  }

  function PageCount(size: nat): nat {
    (size + PAGE - 1) / PAGE
  }

  lemma EndPage(start: nat, size: nat)
    requires Aligned(start)
    ensures AlignUp(start + size) == (start / PAGE + PageCount(size)) * PAGE
  {
    var q, n := start / PAGE, size + PAGE - 1;
    assert start == q * PAGE;
    assert n == n / PAGE * PAGE + n % PAGE;
    assert (q * PAGE + n) % PAGE == n % PAGE;
  }

  lemma AlignedPages(start: nat, size: nat, p: nat)
    requires Aligned(start)
    ensures p in PagesOf(start, size) <==> start / PAGE <= p < start / PAGE + PageCount(size)
  {
    EndPage(start, size);
    AlignFacts(start);
  }

  lemma ResizeFollowsPages(exec: set<nat>, addr: nat, oldSize: nat, newSize: nat, fixed: bool)
    requires KernelMremap(addr, oldSize, newSize, fixed, addr) && MayRemap(exec, addr, oldSize, newSize, fixed)
    ensures FollowsPages(exec, Resized(exec, addr, oldSize, newSize), addr, oldSize, addr, newSize)
  {
    var oldEnd, newEnd := AlignUp(addr + oldSize), AlignUp(addr + newSize);
    EndPage(addr, oldSize);
    EndPage(addr, newSize);
    forall p: nat
      ensures FollowsPage(exec, Resized(exec, addr, oldSize, newSize), addr, oldSize, addr, newSize, p)
    {
      AlignedPages(addr, oldSize, p);
      AlignedPages(addr, oldSize, addr / PAGE);
      AlignedPages(addr, newSize, p);
      if newEnd <= oldEnd {
        AlignedPages(newEnd, oldEnd - newEnd, p);
      } else {
        AlignedPages(oldEnd, newEnd - oldEnd, p);
      }
    }
  }

  lemma MoveFollowsPages(exec: set<nat>, oldAddr: nat, oldSize: nat, newSize: nat, fixed: bool, addr: nat)
    requires KernelMremap(oldAddr, oldSize, newSize, fixed, addr) && addr != oldAddr
    requires MayRemap(exec, oldAddr, oldSize, newSize, fixed)
    ensures FollowsPages(exec, Moved(exec, oldAddr, oldSize, addr, newSize), oldAddr, oldSize, addr, newSize)
  {
    var after := Moved(exec, oldAddr, oldSize, addr, newSize);
    forall p: nat
      ensures FollowsPage(exec, after, oldAddr, oldSize, addr, newSize, p)
    {
      if p in PagesOf(addr, newSize) {
        MovedPage(exec, oldAddr, oldSize, newSize, fixed, addr, p);
      }
    }
  }

  lemma MovedPage(exec: set<nat>, oldAddr: nat, oldSize: nat, newSize: nat, fixed: bool, addr: nat, p: nat)
    requires KernelMremap(oldAddr, oldSize, newSize, fixed, addr) && addr != oldAddr
    requires MayRemap(exec, oldAddr, oldSize, newSize, fixed) && p in PagesOf(addr, newSize)
    ensures FollowsPage(exec, Moved(exec, oldAddr, oldSize, addr, newSize), oldAddr, oldSize, addr, newSize, p)
  {
    var kept := if oldSize < newSize then oldSize else newSize;
    AlignedPages(addr, newSize, p);
    AlignedPages(oldAddr, oldSize, p);
    var s := Source(oldAddr, oldSize, addr, p);
    AlignedPages(oldAddr, oldSize, oldAddr / PAGE + (p - addr / PAGE));
    AlignedPages(oldAddr, kept, s);
    assert s in PagesOf(oldAddr, kept);
    assert p !in PagesOf(oldAddr, oldSize);
    assert p in Mappable(PagesOf(addr, newSize));
  }
}
