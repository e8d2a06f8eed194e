/** The executable-page shadow: one bit per guest page in a byte array, read as a set of page numbers. */
module Shadow {
  import opened Pages
  import opened TranslationCacheSpec
  import opened TranslationCacheImpl
  import Coherence

  const MAX_GUEST_ADDRESS: nat := 0xffff_ffff_ffff
  const PAGE_COUNT: nat := 0x10_0000_0000
  const SHADOW_SIZE: nat := 0x2_0000_0000

  datatype BitValue = BitUnset | BitSet | BitMixed

  /** `1 << (page & 7)`. */
  function Mask(k: nat): bv8
    requires k < 8
  {
    if k == 0 then 1 else if k == 1 then 2 else if k == 2 then 4 else if k == 3 then 8
    else if k == 4 then 16 else if k == 5 then 32 else if k == 6 then 64 else 128
  }

  predicate TestBit(b: bv8, k: nat)
    requires k < 8
  {
    b & Mask(k) != 0
  }

  lemma SettingABit(b: bv8, k: nat, j: nat)
    requires k < 8 && j < 8
    ensures TestBit(b | Mask(k), j) <==> j == k || TestBit(b, j)
  {
  }

  lemma ClearingABit(b: bv8, k: nat, j: nat)
    requires k < 8 && j < 8
    ensures TestBit(b & !Mask(k), j) <==> j != k && TestBit(b, j)
  {
  }

  predicate Bit(bytes: seq<bv8>, p: nat)
    requires |bytes| == SHADOW_SIZE && p < PAGE_COUNT
  {
    TestBit(bytes[p / 8], p % 8)
  }

  /** The set of executable pages a shadow stands for. */
  ghost function ExecIn(bytes: seq<bv8>): set<nat>
    requires |bytes| == SHADOW_SIZE
  {
    set p: nat | p < PAGE_COUNT && Bit(bytes, p)
  }

  /** Pages the shadow has a bit for. */
  function Mappable(ps: set<nat>): set<nat> {
    set p | p in ps && p < PAGE_COUNT
  }

  lemma SamePage(p: nat, q: nat)
    ensures p == q <==> p / 8 == q / 8 && p % 8 == q % 8
  {
  }

  /** A byte that differs from the old one in one bit at most changes one page at most. */
  lemma ByteChange(bytes: seq<bv8>, p: nat, byte: bv8, on: bool)
    requires |bytes| == SHADOW_SIZE && p < PAGE_COUNT
    requires forall j: nat | j < 8 :: TestBit(byte, j) <==> if j == p % 8 then on else TestBit(bytes[p / 8], j)
    ensures ExecIn(bytes[p / 8 := byte]) == if on then ExecIn(bytes) + {p} else ExecIn(bytes) - {p}
  {
    var n := bytes[p / 8 := byte];
    forall q: nat | q < PAGE_COUNT
      ensures Bit(n, q) <==> if q == p then on else Bit(bytes, q)
    {
      SamePage(p, q);
      if q / 8 == p / 8 {
        assert n[q / 8] == byte;
      } else {
        assert n[q / 8] == bytes[q / 8];
      }
    }
  }

  predicate NotBefore(p: nat, first: nat) {
    first <= p
  }

  /** Pages `first` up to but not including q. */
  function PagesBetween(first: nat, q: nat): set<nat> {
    set p | 0 <= p < q && NotBefore(p, first)
  }

  lemma PagesBetweenNext(first: nat, q: nat)
    requires first <= q
    ensures PagesBetween(first, q + 1) == PagesBetween(first, q) + {q} && q !in PagesBetween(first, q)
    ensures PagesBetween(first, first) == {}
  {
  }

  /** Page numbers without division. */
  lemma PageStart(q: nat)
    ensures (PAGE * q) / PAGE == q && Aligned(PAGE * q)
    ensures PAGE * q > MAX_GUEST_ADDRESS <==> PAGE_COUNT <= q
  {
  }

  lemma RangeInPages(start: nat, size: nat)
    ensures AlignDown(start) == PAGE * (start / PAGE)
    ensures AlignUp(start + size) == PAGE * (AlignUp(start + size) / PAGE)
    ensures start < PAGE * (start / PAGE + 1)
    ensures start / PAGE <= AlignUp(start + size) / PAGE
    ensures PagesOf(start, size) == PagesBetween(start / PAGE, AlignUp(start + size) / PAGE)
  {
    AlignFacts(start + size);
    AlignFacts(start);
  }

  lemma SetStep(exec: set<nat>, first: nat, q: nat)
    requires first <= q
    ensures var next := if q < PAGE_COUNT then {q} else {};
            exec + Mappable(PagesBetween(first, q)) + next == exec + Mappable(PagesBetween(first, q + 1))
  {
    PagesBetweenNext(first, q);
  }

  lemma ClearStep(exec: set<nat>, first: nat, q: nat)
    requires first <= q
    ensures var before, done := PagesBetween(first, q), PagesBetween(first, q + 1);
            && exec - before - {q} == exec - done
            && (exec * done != {} <==> q in exec - before || exec * before != {})
  {
    PagesBetweenNext(first, q);
    var before := PagesBetween(first, q);
    assert exec * (before + {q}) == exec * before + (if q in exec then {q} else {});
  }

  class GuestMapShadow {
    const shadow: array<bv8>
    const cache: TranslationCache

    ghost predicate Valid()
      reads this, cache
    {
      shadow.Length == SHADOW_SIZE && cache.Valid()
    }

    /** The pages that are executable. */
    ghost function Exec(): set<nat>
      requires shadow.Length == SHADOW_SIZE
      reads this, shadow
    {
      ExecIn(shadow[..])
    }

    constructor (cache: TranslationCache)
      requires cache.Valid()
      ensures Valid() && this.cache == cache && fresh(shadow) && Exec() == {}
    {
      this.cache := cache;
      shadow := new bv8[SHADOW_SIZE](_ => 0);
    }

    function IsExecAddr(addr: nat): (r: bool)
      requires shadow.Length == SHADOW_SIZE
      reads this, shadow
      ensures r <==> addr / PAGE in Exec()
    {
      if addr > MAX_GUEST_ADDRESS then false
      else
        var page := addr / PAGE;
        TestBit(shadow[page / 8], page % 8)
    }

    /** Tells whether the value changed. Addresses without a bit are left alone. */
    method SetExecAddr(addr: nat, on: bool) returns (changed: bool)
      requires shadow.Length == SHADOW_SIZE
      modifies shadow
      ensures Exec() == if addr > MAX_GUEST_ADDRESS then old(Exec())
                        else if on then old(Exec()) + {addr / PAGE}
                        else old(Exec()) - {addr / PAGE}
      ensures changed <==> addr <= MAX_GUEST_ADDRESS && (addr / PAGE in old(Exec())) != on
    {
      if addr > MAX_GUEST_ADDRESS {
        return false;
      }
      var page := addr / PAGE;
      var i, k := page / 8, page % 8;
      ghost var was := shadow[..];
      var byte := shadow[i];
      changed := TestBit(byte, k) != on;
      var updated := if on then byte | Mask(k) else byte & !Mask(k);
      forall j: nat | j < 8
        ensures TestBit(updated, j) <==> if j == k then on else TestBit(byte, j)
      {
        SettingABit(byte, k, j);
        ClearingABit(byte, k, j);
      }
      shadow[i] := updated;
      assert shadow[..] == was[i := updated];
      ByteChange(was, page, updated, on);
    }

    method SetExecutable(start: nat, size: nat)
      requires shadow.Length == SHADOW_SIZE
      modifies shadow
      ensures Exec() == old(Exec()) + Mappable(PagesOf(start, size))
    {
      ghost var was, first, last := Exec(), start / PAGE, AlignUp(start + size) / PAGE;
      var end, pc := AlignUp(start + size), AlignDown(start);
      RangeInPages(start, size);
      PagesBetweenNext(first, first);
      ghost var q := first;
      while pc < end
        invariant pc == PAGE * q && first <= q <= last
        invariant Exec() == was + Mappable(PagesBetween(first, q))
      {
        PageStart(q);
        SetStep(was, first, q);
        var _ := SetExecAddr(pc, true);
        pc := pc + PAGE;
        q := q + 1;
      }
    }

    /** The loop of ClearExecutable. */
    method ClearPages(start: nat, size: nat) returns (changed: bool)
      requires shadow.Length == SHADOW_SIZE
      modifies shadow
      ensures Exec() == old(Exec()) - PagesOf(start, size)
      ensures changed <==> old(Exec()) * PagesOf(start, size) != {}
    {
      ghost var was, first, last := Exec(), start / PAGE, AlignUp(start + size) / PAGE;
      var end, pc := AlignUp(start + size), AlignDown(start);
      changed := false;
      RangeInPages(start, size);
      PagesBetweenNext(first, first);
      ghost var q := first;
      while pc < end
        invariant pc == PAGE * q && first <= q <= last
        invariant Exec() == was - PagesBetween(first, q)
        invariant changed <==> was * PagesBetween(first, q) != {}
      {
        PageStart(q);
        ClearStep(was, first, q);
        var c := SetExecAddr(pc, false);
        changed := changed || c;
        pc := pc + PAGE;
        q := q + 1;
      }
    }

    /** Clears whole pages; if any bit changed, the cache is told the caller's own start. */
    method ClearExecutable(start: nat, size: nat)
      requires Valid()
      modifies shadow, cache
      ensures Valid()
      ensures Exec() == old(Exec()) - PagesOf(start, size)
      ensures cache.State() == Coherence.CacheAfterClear(old(cache.State()), old(Exec()), start, size)
    {
      var changed := ClearPages(start, size);
      if changed {
        var _ := cache.InvalidateGuestRange(start, AlignUp(start + size));
      }
    }

    /** How far the first page's bit goes on, in whole pages, from `start`. */
    method GetExecutableRegionSize(start: nat, scanSize: nat) returns (isExec: bool, size: nat)
      requires shadow.Length == SHADOW_SIZE
      ensures 0 < size && Aligned(start + size)
      ensures isExec <==> start / PAGE in Exec()
      ensures forall p | start / PAGE <= p < (start + size) / PAGE :: p in Exec() <==> isExec
      ensures start + size < AlignUp(start + scanSize) ==> ((start + size) / PAGE in Exec() <==> !isExec)
      ensures start + size <= AlignUp(start + scanSize) || start + size == AlignDown(start) + PAGE
    {
      var pc, scanEnd := AlignDown(start), AlignUp(start + scanSize);
      ghost var first, last := start / PAGE, scanEnd / PAGE;
      RangeInPages(start, scanSize);
      PageStart(first);
      isExec := IsExecAddr(pc);
      pc := pc + PAGE;
      ghost var q := first + 1;
      while pc < scanEnd
        invariant pc == PAGE * q && first < q && (q <= last || q == first + 1)
        invariant forall p | first <= p < q :: p in Exec() <==> isExec
      {
        PageStart(q);
        if isExec != IsExecAddr(pc) {
          break;
        }
        pc := pc + PAGE;
        q := q + 1;
      }
      PageStart(q);
      size := pc - start;
    }

    /** The bit all pages of the range share; an empty range is answered by its first page. */
    method GetExecutable(start: nat, scanSize: nat) returns (r: BitValue)
      requires shadow.Length == SHADOW_SIZE
      ensures r == if scanSize == 0 then (if start / PAGE in Exec() then BitSet else BitUnset)
                   else CommonBit(Exec(), PagesOf(start, scanSize))
    {
      AlignFacts(start);
      AlignFacts(start + scanSize);
      var isExec, regionSize := GetExecutableRegionSize(start, scanSize);
      ghost var stop := (start + regionSize) / PAGE;
      if scanSize != 0 {
        assert start / PAGE in PagesOf(start, scanSize);
      }
      if regionSize < scanSize {
        assert stop in PagesOf(start, scanSize);
        return BitMixed;
      }
      assert forall p | p in PagesOf(start, scanSize) :: start / PAGE <= p < stop;
      r := if isExec then BitSet else BitUnset;
    }

    method IsExecutable(start: nat, size: nat) returns (r: bool)
      requires shadow.Length == SHADOW_SIZE
      ensures r <==> Wholly(Exec(), start, size)
    {
      AlignFacts(start);
      AlignFacts(start + size);
      assert size != 0 ==> start / PAGE in PagesOf(start, size);
      var v := GetExecutable(start, size);
      r := v == BitSet;
    }

    /** Gives the target the bit the whole source has; a partly executable source counts as not executable. */
    method CopyExecutable(from: nat, fromSize: nat, to: nat, toSize: nat)
      requires Valid() && Aligned(from) && Aligned(to)
      requires from + fromSize <= to || to + toSize <= from
      modifies shadow, cache
      ensures Valid()
      ensures Exec() == Copied(old(Exec()), from, fromSize, to, toSize)
    {
      var all := IsExecutable(from, fromSize);
      if all {
        SetExecutable(to, toSize);
      } else {
        ClearExecutable(to, toSize);
      }
    }

    method RemapExecutable(oldStart: nat, oldSize: nat, newStart: nat, newSize: nat)
      requires Valid() && Aligned(oldStart) && Aligned(newStart)
      requires oldStart == newStart || oldStart + oldSize <= newStart || newStart + newSize <= oldStart
      modifies shadow, cache
      ensures Valid()
      ensures Exec() == Remapped(old(Exec()), oldStart, oldSize, newStart, newSize)
    {
      if oldStart == newStart {
        ResizeExecutable(oldStart, oldSize, newSize);
      } else {
        MoveExecutable(oldStart, oldSize, newStart, newSize);
      }
    }

    /** The special processing of RemapExecutable when only the size changes. */
    method ResizeExecutable(start: nat, oldSize: nat, newSize: nat)
      requires Valid() && Aligned(start)
      modifies shadow, cache
      ensures Valid()
      ensures Exec() == Resized(old(Exec()), start, oldSize, newSize)
    {
      var oldEnd, newEnd := AlignUp(start + oldSize), AlignUp(start + newSize);
      if newEnd <= oldEnd {
        ClearExecutable(newEnd, oldEnd - newEnd);
      } else {
        AlignFacts(start + oldSize);
        CopyExecutable(start, oldSize, oldEnd, newEnd - oldEnd);
      }
    }

    /** The last two statements of RemapExecutable. */
    method MoveExecutable(oldStart: nat, oldSize: nat, newStart: nat, newSize: nat)
      requires Valid() && Aligned(oldStart) && Aligned(newStart)
      requires oldStart + oldSize <= newStart || newStart + newSize <= oldStart
      modifies shadow, cache
      ensures Valid()
      ensures Exec() == Moved(old(Exec()), oldStart, oldSize, newStart, newSize)
    {
      CopyExecutable(oldStart, if oldSize < newSize then oldSize else newSize, newStart, newSize);
      ClearExecutable(oldStart, oldSize);
    }
  }

  /** Set, unset or mixed over a non-empty set of pages. */
  function CommonBit(exec: set<nat>, ps: set<nat>): BitValue {
    if ps <= exec then BitSet else if ps !! exec then BitUnset else BitMixed
  }

  /** What IsExecutable answers. */
  predicate Wholly(exec: set<nat>, start: nat, size: nat) {
    if size == 0 then start / PAGE in exec else PagesOf(start, size) <= exec
  }

  function Copied(exec: set<nat>, from: nat, fromSize: nat, to: nat, toSize: nat): set<nat> {
    if Wholly(exec, from, fromSize) then exec + Mappable(PagesOf(to, toSize)) else exec - PagesOf(to, toSize)
  }

  function Remapped(exec: set<nat>, oldStart: nat, oldSize: nat, newStart: nat, newSize: nat): set<nat> {
    if oldStart == newStart then Resized(exec, oldStart, oldSize, newSize)
    else Moved(exec, oldStart, oldSize, newStart, newSize)
  }

  function Resized(exec: set<nat>, start: nat, oldSize: nat, newSize: nat): set<nat> {
    var oldEnd, newEnd := AlignUp(start + oldSize), AlignUp(start + newSize);
    if newEnd <= oldEnd then exec - PagesOf(newEnd, oldEnd - newEnd)
    else Copied(exec, start, oldSize, oldEnd, newEnd - oldEnd)
  }

  function Moved(exec: set<nat>, oldStart: nat, oldSize: nat, newStart: nat, newSize: nat): set<nat> {
    var copied := if oldSize < newSize then oldSize else newSize;
    Copied(exec, oldStart, copied, newStart, newSize) - PagesOf(oldStart, oldSize)
  }
}
