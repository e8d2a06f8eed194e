/**
 Loading the segments of an ELF file: reserving address space and building the memory image that chapter 5
 of the System V gABI describes. The kernel is the class AddressSpace; which of its calls succeed is a parameter.
 */
module Loader {
  import opened Pages

  datatype Prot = Prot(r: bool, w: bool, x: bool)

  const PROT_NONE: Prot := Prot(false, false, false)

  datatype Cell = Cell(byte: bv8, prot: Prot)

  datatype Phdr = Phdr(load: bool, flags: Prot, vaddr: nat, memsz: nat, offset: nat, filesz: nat)

  type Memory = map<nat, Cell>

  /** File contents, zero past the end. */
  function FileByte(file: seq<bv8>, i: nat): bv8 {
    if i < |file| then file[i] else 0
  }

  predicate InSpan(a: nat, lo: nat, hi: nat) {
    lo <= a < hi
  }

  ghost predicate SameCell(before: Memory, after: Memory, a: nat) {
    (a in before <==> a in after) && (a in before ==> before[a] == after[a])
  }

  ghost predicate OnlyChanged(before: Memory, after: Memory, lo: nat, hi: nat) {
    forall a: nat | !InSpan(a, lo, hi) :: SameCell(before, after, a)
  }

  class AddressSpace {
    var mem: Memory

    /** mmap with MAP_FIXED: whole pages, from the file or, with an empty file, anonymous. */
    method MapFixed(addr: nat, len: nat, prot: Prot, file: seq<bv8>, offset: nat)
      requires Aligned(addr) && Aligned(offset)
      modifies this
      ensures OnlyChanged(old(mem), mem, addr, addr + AlignUp(len))
      ensures forall a: nat | InSpan(a, addr, addr + AlignUp(len)) ::
                a in mem && mem[a] == Cell(FileByte(file, offset + (a - addr)), prot)
    {
      var end := addr + AlignUp(len);
      mem := mem +
             map a: nat | addr <= a < end && InSpan(a, addr, end) :: Cell(FileByte(file, offset + (a - addr)), prot);
    }

    /** Only writable memory can be zeroed. */
    method ZeroFill(addr: nat, len: nat)
      requires forall a | InSpan(a, addr, addr + len) :: a in mem && mem[a].prot.w
      modifies this
      ensures OnlyChanged(old(mem), mem, addr, addr + len)
      ensures forall a | InSpan(a, addr, addr + len) :: a in mem && a in old(mem) && mem[a] == old(mem)[a].(byte := 0)
    {
      var end := addr + len;
      var m := mem;
      mem := m + map a: nat | addr <= a < end && InSpan(a, addr, end) :: m[a].(byte := 0);
    }

    method Unmap(addr: nat, len: nat)
      requires Aligned(addr)
      modifies this
      ensures OnlyChanged(old(mem), mem, addr, addr + AlignUp(len))
      ensures forall a: nat | InSpan(a, addr, addr + AlignUp(len)) :: a !in mem
    {
      var end := addr + AlignUp(len);
      mem := mem - set a: nat | addr <= a < end && InSpan(a, addr, end);
    }
  }

  // ---------------------------------------------------------------------------------------------- one segment

  /** What the ELF format promises about a loadable segment. */
  predicate SegmentFormat(ph: Phdr) {
    ph.vaddr % PAGE == ph.offset % PAGE && ph.filesz <= ph.memsz
  }

  predicate FileMapped(ph: Phdr) {
    ph.offset + ph.filesz != AlignDown(ph.offset)
  }

  /** The segment lies in the file, is not both writable and executable, and the kernel grants its mappings. */
  predicate SegmentOk(ph: Phdr, file: seq<bv8>, fileOk: bool, zeroOk: bool) {
    && 0 < |file| && ph.offset + ph.filesz <= |file|
    && (FileMapped(ph) ==> !(ph.flags.w && ph.flags.x) && fileOk)
    && (AlignUp(ph.vaddr + ph.filesz) < AlignUp(ph.vaddr + ph.memsz) ==> zeroOk)
  }

  /** Pages both writable and executable come from segments without file contents only, and those are accepted. */
  lemma WritableAndExecutable(ph: Phdr, file: seq<bv8>)
    requires ph.flags.w && ph.flags.x && SegmentFormat(ph)
    ensures (exists fileOk, zeroOk :: SegmentOk(ph, file, fileOk, zeroOk)) <==>
            ph.filesz == 0 && Aligned(ph.offset) && ph.offset <= |file| && 0 < |file|
  {
    AlignFacts(ph.offset);
    if ph.filesz == 0 && Aligned(ph.offset) && ph.offset <= |file| && 0 < |file| {
      assert SegmentOk(ph, file, false, true);
    }
  }

  /** A byte of a segment's pages: its file byte, or zero after them if it is writable, and its protection. */
  ghost predicate SegmentCell(mem: Memory, file: seq<bv8>, ph: Phdr, start: nat, a: nat) {
    && a in mem && mem[a].prot == ph.flags
    && (InSpan(a, start, start + ph.filesz) ==>
          ph.offset + (a - start) < |file| && mem[a].byte == file[ph.offset + (a - start)])
    && (ph.flags.w && start + ph.filesz <= a ==> mem[a].byte == 0)
  }

  ghost predicate SegmentLoaded(mem: Memory, file: seq<bv8>, ph: Phdr, start: nat) {
    forall a: nat | InSpan(a, AlignDown(start), AlignUp(start + ph.memsz)) :: SegmentCell(mem, file, ph, start, a)
  }

  /** Rounding depends on the place in the page only. */
  lemma SameRounding(x: nat, y: nat, n: nat)
    requires x % PAGE == y % PAGE
    ensures AlignUp(x + n) - x == AlignUp(y + n) - y
  {
    AlignFacts(x);
    AlignFacts(y);
    AlignUpShift(AlignDown(x), x % PAGE + n);
    AlignUpShift(AlignDown(y), y % PAGE + n);
  }

  /** The page bounds of a segment: lo, the end of its file contents mid, that rounded up, and hi. */
  lemma SegmentArithmetic(ph: Phdr, start: nat)
    requires SegmentFormat(ph) && start % PAGE == ph.vaddr % PAGE
    ensures var lo, mid, hi := AlignDown(start), start + ph.filesz, AlignUp(start + ph.memsz);
            var fileLo := AlignDown(ph.offset);
            var up := AlignUp(mid);
            && Aligned(lo) && Aligned(up) && Aligned(hi) && Aligned(fileLo)
            && lo <= start && fileLo <= ph.offset && mid <= up <= hi && lo + AlignUp(mid - lo) == up
            && start - lo == ph.offset - fileLo
  {
    AlignFacts(start);
    AlignFacts(ph.offset);
    AlignFacts(start + ph.filesz);
    AlignFacts(start + ph.memsz);
    AlignUpShift(AlignDown(start), start + ph.filesz - AlignDown(start));
    AlignMonotone(start + ph.filesz, start + ph.memsz);
  }

  lemma ZeroPartNeeded(ph: Phdr, start: nat)
    requires start % PAGE == ph.vaddr % PAGE
    ensures AlignUp(start + ph.filesz) < AlignUp(start + ph.memsz)
       <==> AlignUp(ph.vaddr + ph.filesz) < AlignUp(ph.vaddr + ph.memsz)
  {
    SameRounding(start, ph.vaddr, ph.filesz);
    SameRounding(start, ph.vaddr, ph.memsz);
  }

  /** A segment's pages: file contents, the rest of the last file page, pages without file contents. */
  ghost predicate Image(mem: Memory, file: seq<bv8>, fileLo: nat, prot: Prot, lo: nat, mid: nat, hi: nat) {
    forall a: nat | InSpan(a, lo, hi) :: ImageCell(mem, file, fileLo, prot, lo, mid, a)
  }

  ghost predicate ImageCell(mem: Memory, file: seq<bv8>, fileLo: nat, prot: Prot, lo: nat, mid: nat, a: nat) {
    && a in mem && mem[a].prot == prot
    && (lo <= a < mid ==> mem[a].byte == FileByte(file, fileLo + (a - lo)))
    && (prot.w && mid <= a ==> mem[a].byte == 0)
  }

  lemma RestOfPage(a: nat)
    ensures a % PAGE > 0 ==> AlignUp(a) == a + (PAGE - a % PAGE)
    ensures a % PAGE == 0 ==> AlignUp(a) == a
  {
    AlignFacts(a);
  }

  lemma Widen(m0: Memory, m1: Memory, lo: nat, hi: nat, lo': nat, hi': nat)
    requires OnlyChanged(m0, m1, lo, hi) && lo' <= lo && hi <= hi'
    ensures OnlyChanged(m0, m1, lo', hi')
  {
  }

  lemma ChangesNest(m0: Memory, m1: Memory, m2: Memory, lo: nat, hi: nat, lo': nat, hi': nat)
    requires OnlyChanged(m0, m1, lo, hi) && OnlyChanged(m1, m2, lo', hi') && lo <= lo' && hi' <= hi
    ensures OnlyChanged(m0, m2, lo, hi)
  {
    forall a: nat | !InSpan(a, lo, hi) ensures SameCell(m0, m2, a) {
      assert SameCell(m0, m1, a) && SameCell(m1, m2, a);
    }
  }

  ghost predicate CopyOf(mem: Memory, file: seq<bv8>, fileLo: nat, prot: Prot, lo: nat, a: nat)
    requires lo <= a
  {
    a in mem && mem[a] == Cell(FileByte(file, fileLo + (a - lo)), prot)
  }

  lemma ImageFromParts(mapped: Memory, mem: Memory, file: seq<bv8>, fileLo: nat, prot: Prot, lo: nat, mid: nat, up: nat)
    requires lo <= mid <= up
    requires forall a: nat | InSpan(a, lo, up) :: CopyOf(mapped, file, fileLo, prot, lo, a)
    requires OnlyChanged(mapped, mem, mid, up)
    requires forall a: nat | InSpan(a, mid, up) ::
               && a in mem && a in mapped && mem[a].prot == mapped[a].prot && (prot.w ==> mem[a].byte == 0)
    ensures Image(mem, file, fileLo, prot, lo, mid, up)
  {
    forall a: nat | InSpan(a, lo, up) ensures ImageCell(mem, file, fileLo, prot, lo, mid, a) {
      assert CopyOf(mapped, file, fileLo, prot, lo, a);
      if a < mid {
        assert SameCell(mapped, mem, a);
      } else {
        assert InSpan(a, mid, up);
      }
    }
  }

  method MapFilePart(space: AddressSpace, file: seq<bv8>, fileLo: nat, prot: Prot, lo: nat, mid: nat, up: nat)
    requires Aligned(lo) && Aligned(fileLo) && lo <= mid <= up && lo + AlignUp(mid - lo) == up && up == AlignUp(mid)
    modifies space
    ensures OnlyChanged(old(space.mem), space.mem, lo, up)
    ensures Image(space.mem, file, fileLo, prot, lo, mid, up)
  {
    RestOfPage(mid);
    if mid != lo {
      space.MapFixed(lo, mid - lo, prot, file, fileLo);
    }
    ghost var mapped := space.mem;
    if prot.w && mid % PAGE > 0 {
      space.ZeroFill(mid, PAGE - mid % PAGE);
    }
    ChangesNest(old(space.mem), mapped, space.mem, lo, up, mid, up);
    ImageFromParts(mapped, space.mem, file, fileLo, prot, lo, mid, up);
  }

  method MapZeroPart(space: AddressSpace, ghost file: seq<bv8>, ghost fileLo: nat, prot: Prot, ghost lo: nat,
                     ghost mid: nat, up: nat, hi: nat)
    requires lo <= mid <= up <= hi && Aligned(up) && Aligned(hi)
    requires Image(space.mem, file, fileLo, prot, lo, mid, up)
    modifies space
    ensures OnlyChanged(old(space.mem), space.mem, up, hi)
    ensures Image(space.mem, file, fileLo, prot, lo, mid, hi)
  {
    if hi > up {
      AlignUpShift(up, hi - up);
      AlignFacts(hi);
      space.MapFixed(up, hi - up, prot, [], 0);
      ImageExtended(old(space.mem), space.mem, file, fileLo, prot, lo, mid, up, hi);
    }
  }

  lemma ImageExtended(m0: Memory, m1: Memory, file: seq<bv8>, fileLo: nat, prot: Prot, lo: nat, mid: nat, up: nat,
                      hi: nat)
    requires lo <= mid <= up <= hi && Image(m0, file, fileLo, prot, lo, mid, up) && OnlyChanged(m0, m1, up, hi)
    requires forall a: nat | InSpan(a, up, hi) :: a in m1 && m1[a] == Cell(0, prot)
    ensures Image(m1, file, fileLo, prot, lo, mid, hi)
  {
    forall a: nat | InSpan(a, lo, hi) ensures ImageCell(m1, file, fileLo, prot, lo, mid, a) {
      if a < up {
        assert InSpan(a, lo, up) && SameCell(m0, m1, a);
      } else {
        assert InSpan(a, up, hi);
      }
    }
  }

  lemma LoadedFromImage(mem: Memory, file: seq<bv8>, ph: Phdr, start: nat, lo: nat, fileLo: nat)
    requires lo <= start && fileLo <= ph.offset && start - lo == ph.offset - fileLo && lo == AlignDown(start)
    requires Image(mem, file, fileLo, ph.flags, lo, start + ph.filesz, AlignUp(start + ph.memsz))
    requires ph.offset + ph.filesz <= |file|
    ensures SegmentLoaded(mem, file, ph, start)
  {
    forall a: nat | InSpan(a, lo, AlignUp(start + ph.memsz)) ensures SegmentCell(mem, file, ph, start, a) {
      assert ImageCell(mem, file, fileLo, ph.flags, lo, start + ph.filesz, a);
    }
  }

  method LoadSegment(space: AddressSpace, file: seq<bv8>, ph: Phdr, start: nat, fileOk: bool, zeroOk: bool)
    returns (ok: bool)
    requires SegmentFormat(ph) && start % PAGE == ph.vaddr % PAGE
    modifies space
    ensures ok <==> SegmentOk(ph, file, fileOk, zeroOk)
    ensures ok ==> SegmentLoaded(space.mem, file, ph, start)
    ensures ok && ph.flags.w && ph.flags.x ==> ph.filesz == 0 && Aligned(ph.offset)
    ensures OnlyChanged(old(space.mem), space.mem, AlignDown(start), AlignUp(start + ph.memsz))
  {
    SegmentArithmetic(ph, start);
    ZeroPartNeeded(ph, start);
    AlignFacts(ph.offset);
    var segPageStart, segPageEnd, segFileEnd := AlignDown(start), AlignUp(start + ph.memsz), start + ph.filesz;
    var fileEnd, filePageStart := ph.offset + ph.filesz, AlignDown(ph.offset);
    if |file| == 0 || fileEnd > |file| {
      return false;
    }
    if fileEnd != filePageStart && ((ph.flags.x && ph.flags.w) || !fileOk) {
      return false;
    }
    var segFilePageEnd := AlignUp(segFileEnd);
    MapFilePart(space, file, filePageStart, ph.flags, segPageStart, segFileEnd, segFilePageEnd);
    ghost var mapped := space.mem;
    ok := zeroOk || segPageEnd <= segFilePageEnd;
    if ok {
      MapZeroPart(space, file, filePageStart, ph.flags, segPageStart, segFileEnd, segFilePageEnd, segPageEnd);
      LoadedFromImage(space.mem, file, ph, start, segPageStart, filePageStart);
    }
    ChangesJoin(old(space.mem), mapped, space.mem, segPageStart, segFilePageEnd, segPageEnd);
  }

  lemma ChangesJoin(m0: Memory, m1: Memory, m2: Memory, lo: nat, mid: nat, hi: nat)
    requires OnlyChanged(m0, m1, lo, mid) && OnlyChanged(m1, m2, mid, hi) && lo <= mid <= hi
    ensures OnlyChanged(m0, m2, lo, hi)
  {
    forall a: nat | !InSpan(a, lo, hi) ensures SameCell(m0, m2, a) {
      assert SameCell(m0, m1, a) && SameCell(m1, m2, a);
    }
  }

  // ---------------------------------------------------------------------------------------------- reservation

  const ADDRESS_MAX: nat := 0xffff_ffff_ffff_ffff

  ghost predicate NoOverflow(phdrs: seq<Phdr>) {
    forall i | 0 <= i < |phdrs| && phdrs[i].load :: phdrs[i].vaddr + phdrs[i].memsz + PAGE <= ADDRESS_MAX
  }

  function MinVaddr(phdrs: seq<Phdr>): nat {
    if phdrs == [] then ADDRESS_MAX else
      var min, last := MinVaddr(phdrs[..|phdrs| - 1]), phdrs[|phdrs| - 1];
      if last.load && last.vaddr < min then last.vaddr else min
  }

  function MaxEnd(phdrs: seq<Phdr>): nat {
    if phdrs == [] then 0 else
      var max, last := MaxEnd(phdrs[..|phdrs| - 1]), phdrs[|phdrs| - 1];
      if last.load && max < last.vaddr + last.memsz then last.vaddr + last.memsz else max
  }

  predicate AnyLoad(phdrs: seq<Phdr>) {
    exists ph | ph in phdrs :: ph.load
  }

  function LoadMin(phdrs: seq<Phdr>): nat {
    AlignDown(if AnyLoad(phdrs) then MinVaddr(phdrs) else 0)
  }

  function LoadSize(phdrs: seq<Phdr>): int {
    AlignUp(MaxEnd(phdrs)) - LoadMin(phdrs)
  }

  method PhdrTableGetLoadSize(phdrs: seq<Phdr>) returns (size: nat, minVaddr: nat)
    requires NoOverflow(phdrs)
    ensures size == LoadSize(phdrs) && minVaddr == LoadMin(phdrs)
  {
    var min, max, found := ADDRESS_MAX, 0, false;
    for i := 0 to |phdrs|
      invariant min == MinVaddr(phdrs[..i]) && max == MaxEnd(phdrs[..i]) && found == AnyLoad(phdrs[..i])
    {
      assert phdrs[..i + 1][..i] == phdrs[..i] && phdrs[..i + 1] == phdrs[..i] + [phdrs[i]];
      var ph := phdrs[i];
      if ph.load {
        found := true;
        if ph.vaddr < min {
          min := ph.vaddr;
        }
        if ph.vaddr + ph.memsz > max {
          max := ph.vaddr + ph.memsz;
        }
      }
    }
    assert phdrs[..|phdrs|] == phdrs;
    if !found {
      min := 0;
    }
    LoadExtent(phdrs);
    minVaddr := AlignDown(min);
    size := AlignUp(max) - minVaddr;
  }

  ghost predicate Holds(lo: nat, hi: nat, ph: Phdr) {
    lo <= AlignDown(ph.vaddr) && AlignUp(ph.vaddr + ph.memsz) <= hi
  }

  predicate StartsAt(ph: Phdr, lo: nat) {
    ph.load && AlignDown(ph.vaddr) == lo
  }

  predicate EndsAt(ph: Phdr, hi: nat) {
    ph.load && AlignUp(ph.vaddr + ph.memsz) == hi
  }

  /** The extent is the least page range that holds every loadable segment, or empty when there is none. */
  ghost predicate Extent(phdrs: seq<Phdr>, lo: nat, hi: nat) {
    && lo <= hi && (forall i | 0 <= i < |phdrs| && phdrs[i].load :: Holds(lo, hi, phdrs[i]))
    && (AnyLoad(phdrs) ==> (exists ph | ph in phdrs :: StartsAt(ph, lo)) && (exists ph | ph in phdrs :: EndsAt(ph, hi)))
    && (!AnyLoad(phdrs) ==> lo == hi == 0)
  }

  lemma {:induction false} FoldsBound(phdrs: seq<Phdr>, i: nat)
    requires i < |phdrs| && phdrs[i].load
    ensures MinVaddr(phdrs) <= phdrs[i].vaddr && phdrs[i].vaddr + phdrs[i].memsz <= MaxEnd(phdrs)
    decreases |phdrs|
  {
    if i < |phdrs| - 1 {
      FoldsBound(phdrs[..|phdrs| - 1], i);
    }
  }

  lemma {:induction false} MinReached(phdrs: seq<Phdr>)
    requires NoOverflow(phdrs)
    ensures AnyLoad(phdrs) ==> exists ph | ph in phdrs :: ph.load && ph.vaddr == MinVaddr(phdrs)
    ensures !AnyLoad(phdrs) ==> MinVaddr(phdrs) == ADDRESS_MAX
  {
    if phdrs != [] {
      var rest, last := phdrs[..|phdrs| - 1], phdrs[|phdrs| - 1];
      MinReached(rest);
      assert phdrs == rest + [last] && last in phdrs;
    }
  }

  lemma {:induction false} MaxReached(phdrs: seq<Phdr>)
    ensures AnyLoad(phdrs) ==> exists ph | ph in phdrs :: ph.load && ph.vaddr + ph.memsz == MaxEnd(phdrs)
    ensures !AnyLoad(phdrs) ==> MaxEnd(phdrs) == 0
  {
    if phdrs != [] {
      var rest, last := phdrs[..|phdrs| - 1], phdrs[|phdrs| - 1];
      MaxReached(rest);
      assert phdrs == rest + [last] && last in phdrs;
    }
  }

  lemma RoundedExtent(lo: nat, vaddr: nat, end: nat, hi: nat)
    requires lo <= vaddr <= end <= hi
    ensures AlignDown(lo) <= AlignDown(vaddr) <= AlignUp(end) <= AlignUp(hi)
  {
    AlignMonotone(lo, vaddr);
    AlignMonotone(end, hi);
    AlignFacts(vaddr);
    AlignFacts(end);
  }

  lemma LoadExtent(phdrs: seq<Phdr>)
    requires NoOverflow(phdrs)
    ensures Extent(phdrs, LoadMin(phdrs), AlignUp(MaxEnd(phdrs)))
  {
    MinReached(phdrs);
    MaxReached(phdrs);
    var lo, hi := LoadMin(phdrs), AlignUp(MaxEnd(phdrs));
    forall i | 0 <= i < |phdrs| && phdrs[i].load
      ensures Holds(lo, hi, phdrs[i]) && lo <= hi
    {
      assert phdrs[i] in phdrs;
      FoldsBound(phdrs, i);
      RoundedExtent(MinVaddr(phdrs), phdrs[i].vaddr, phdrs[i].vaddr + phdrs[i].memsz, MaxEnd(phdrs));
    }
    if AnyLoad(phdrs) {
      var first :| first in phdrs && first.load && first.vaddr == MinVaddr(phdrs);
      var last :| last in phdrs && last.load && last.vaddr + last.memsz == MaxEnd(phdrs);
      assert StartsAt(first, lo) && EndsAt(last, hi);
    }
  }

  predicate PowerOf2(n: nat) {
    n == 1 || (n > 1 && n % 2 == 0 && PowerOf2(n / 2))
  }

  lemma {:induction false} PowersDivide(m: nat, n: nat)
    requires PowerOf2(m) && PowerOf2(n) && m <= n
    ensures n % m == 0
  {
    if m > 1 {
      PowersDivide(m / 2, n / 2);
      var q := n / 2 / (m / 2);
      assert n / 2 == q * (m / 2);
      assert n == q * m;
      MultipleModulo(q, m);
    }
  }

  lemma MultipleModulo(q: nat, m: nat)
    requires 0 < m
    ensures (q * m) % m == 0
  {
    var d, r := q * m / m, q * m % m;
    assert r == q * m - d * m == (q - d) * m;
    ScaledBound(q - d, m);
  }

  lemma ScaledBound(k: int, m: nat)
    ensures k >= 1 ==> k * m >= m
    ensures k <= -1 ==> k * m + m <= 0
  {
    if k >= 1 {
      assert k * m == (k - 1) * m + m;
    } else {
      assert k * m == (k + 1) * m - m;
    }
  }

  /** What the kernel answers to a request for address space. */
  datatype Host = Refused | At(addr: nat)

  datatype Reservation = NoSegments | NoSpace | Reserved(start: nat, size: nat, bias: int)

  ghost predicate Free(mem: Memory, lo: nat, hi: nat) {
    forall a: nat | InSpan(a, lo, hi) :: a !in mem
  }

  ghost predicate Inaccessible(mem: Memory, lo: nat, hi: nat) {
    forall a: nat | InSpan(a, lo, hi) :: a in mem && mem[a] == Cell(0, PROT_NONE)
  }

  /** Bytes asked of the kernel: over-aligned reservations ask for more and give the rest back. */
  function Asked(size: int, exec: bool, align: nat): int {
    if exec || align <= PAGE then size else align + size
  }

  ghost predicate HostAnswer(mem: Memory, host: Host, length: int) {
    host.At? ==> Aligned(host.addr) && Free(mem, host.addr, host.addr + AlignUp(if length < 0 then 0 else length))
  }

  function AlignUpTo(a: nat, align: nat): nat
    requires 0 < align
  {
    a + align - 1 - (a + align - 1) % align
  }

  lemma AlignUpToFacts(a: nat, align: nat)
    requires 0 < align
    ensures a <= AlignUpTo(a, align) < a + align && AlignUpTo(a, align) % align == 0
  {
    var n := a + align - 1;
    assert n == n / align * align + n % align;
    MultipleModulo(n / align, align);
  }

  /** Exactly [start, start + size) is newly mapped, and inaccessible; nothing else has changed. */
  ghost predicate ReservedExactly(before: Memory, after: Memory, start: nat, size: nat) {
    && Free(before, start, start + size) && Inaccessible(after, start, start + size)
    && OnlyChanged(before, after, start, start + size)
  }

  ghost predicate SameMemory(before: Memory, after: Memory) {
    forall a: nat :: SameCell(before, after, a)
  }

  method ReserveAddressSpace(space: AddressSpace, exec: bool, phdrs: seq<Phdr>, align: nat, host: Host)
    returns (r: Reservation)
    requires NoOverflow(phdrs) && (align <= PAGE || PowerOf2(align))
    requires HostAnswer(space.mem, host, Asked(LoadSize(phdrs), exec, align))
    modifies space
    ensures r.NoSegments? <==> LoadSize(phdrs) == 0
    ensures r.Reserved? <==> LoadSize(phdrs) != 0 && host.At? && (exec ==> host.addr == LoadMin(phdrs))
    ensures !r.Reserved? ==> SameMemory(old(space.mem), space.mem)
    ensures r.Reserved? ==>
              && ReservedExactly(old(space.mem), space.mem, r.start, r.size) && Aligned(r.start)
              && r.size == LoadSize(phdrs) && r.bias == r.start - LoadMin(phdrs)
              && (exec ==> r.bias == 0) && (!exec && align > PAGE ==> r.start % align == 0)
  {
    var size, min := PhdrTableGetLoadSize(phdrs);
    if size == 0 {
      return NoSegments;
    }
    if host.Refused? {
      return NoSpace;
    }
    SizeAligned(phdrs);
    if exec {
      space.MapFixed(host.addr, size, PROT_NONE, [], 0);
      if host.addr != min {
        space.Unmap(host.addr, size);
        return NoSpace;
      }
      return Reserved(host.addr, size, (host.addr as int) - min);
    } else if align <= PAGE {
      space.MapFixed(host.addr, size, PROT_NONE, [], 0);
      return Reserved(host.addr, size, (host.addr as int) - min);
    }
    var start := ReserveOveraligned(space, size, align, host.addr);
    return Reserved(start, size, (start as int) - min);
  }

  lemma SizeAligned(phdrs: seq<Phdr>)
    requires NoOverflow(phdrs)
    ensures LoadSize(phdrs) >= 0 && Aligned(LoadSize(phdrs)) && AlignUp(LoadSize(phdrs)) == LoadSize(phdrs)
  {
    LoadExtent(phdrs);
    AlignFacts(MaxEnd(phdrs));
    AlignFacts(if AnyLoad(phdrs) then MinVaddr(phdrs) else 0);
    AlignedDiff(AlignUp(MaxEnd(phdrs)), LoadMin(phdrs));
  }

  /** Reserves more than needed, then gives back what lies before and after the aligned range. */
  method ReserveOveraligned(space: AddressSpace, size: nat, align: nat, addr: nat) returns (start: nat)
    requires Aligned(addr) && Aligned(size) && PowerOf2(align) && align > PAGE
    requires Free(space.mem, addr, addr + AlignUp(align + size))
    modifies space
    ensures start % align == 0 && Aligned(start)
    ensures ReservedExactly(old(space.mem), space.mem, start, size)
  {
    OveralignedArithmetic(addr, size, align);
    space.MapFixed(addr, align + size, PROT_NONE, [], 0);
    ghost var whole := space.mem;
    start := AlignUpTo(addr, align);
    space.Unmap(addr, start - addr);
    ghost var trimmed := space.mem;
    space.Unmap(start + size, addr + align - start);
    Trimmed(old(space.mem), whole, trimmed, space.mem, addr, start, start + size, addr + (align + size));
  }

  lemma Trimmed(m0: Memory, m1: Memory, m2: Memory, m3: Memory, lo: nat, start: nat, stop: nat, hi: nat)
    requires lo <= start <= stop <= hi
    requires Free(m0, lo, hi) && OnlyChanged(m0, m1, lo, hi) && Inaccessible(m1, lo, hi)
    requires OnlyChanged(m1, m2, lo, start) && Free(m2, lo, start)
    requires OnlyChanged(m2, m3, stop, hi) && Free(m3, stop, hi)
    ensures ReservedExactly(m0, m3, start, stop - start)
  {
    forall a: nat
      ensures InSpan(a, start, stop) ==> a !in m0 && a in m3 && m3[a] == Cell(0, PROT_NONE)
      ensures !InSpan(a, start, stop) ==> SameCell(m0, m3, a)
    {
      assert InSpan(a, lo, start) || SameCell(m1, m2, a);
      assert InSpan(a, stop, hi) || SameCell(m2, m3, a);
      assert InSpan(a, lo, hi) || SameCell(m0, m1, a);
    }
  }

  lemma OveralignedArithmetic(addr: nat, size: nat, align: nat)
    requires Aligned(addr) && Aligned(size) && PowerOf2(align) && align > PAGE
    ensures var start := AlignUpTo(addr, align);
            && addr <= start < addr + align && start % align == 0 && Aligned(start) && Aligned(start + size)
            && AlignUp(align + size) == align + size
            && AlignUp(start - addr) == start - addr && AlignUp(addr + align - start) == addr + align - start
  {
    AlignUpToFacts(addr, align);
    assert PowerOf2(PAGE);
    PowersDivide(PAGE, align);
    var start := AlignUpTo(addr, align);
    MultipleOfPage(start, align);
    AlignedSum(align, size);
    AlignedSum(start, size);
    AlignedSum(addr, align);
    AlignedDiff(start, addr);
    AlignedDiff(addr + align, start);
  }

  lemma MultipleOfPage(a: nat, align: nat)
    requires 0 < align && a % align == 0 && Aligned(align)
    ensures Aligned(a)
  {
    var q, k := a / align, align / PAGE;
    assert a == q * (k * PAGE) == (q * k) * PAGE;
    MultipleModulo(q * k, PAGE);
  }

  // ---------------------------------------------------------------------------------------------- all segments

  predicate PageDisjoint(a: Phdr, b: Phdr) {
    AlignUp(a.vaddr + a.memsz) <= AlignDown(b.vaddr) || AlignUp(b.vaddr + b.memsz) <= AlignDown(a.vaddr)
  }

  /** Loadable segments are congruent with the file and share no page. */
  ghost predicate FileFormat(phdrs: seq<Phdr>) {
    && NoOverflow(phdrs)
    && (forall i | 0 <= i < |phdrs| && phdrs[i].load :: SegmentFormat(phdrs[i]))
    && (forall i, j | 0 <= i < j < |phdrs| && phdrs[i].load && phdrs[j].load :: PageDisjoint(phdrs[i], phdrs[j]))
  }

  predicate InSegment(ph: Phdr, bias: int, a: nat) {
    AlignDown(ph.vaddr) + bias <= a < AlignUp(ph.vaddr + ph.memsz) + bias
  }

  lemma ShiftedSegment(ph: Phdr, bias: int, base: nat, lo: nat)
    requires Aligned(base) && Aligned(lo) && bias == base - lo && lo <= ph.vaddr
    ensures var start := ph.vaddr + bias;
            && start >= 0 && start % PAGE == ph.vaddr % PAGE
            && AlignDown(start) == AlignDown(ph.vaddr) + bias
            && AlignUp(start + ph.memsz) == AlignUp(ph.vaddr + ph.memsz) + bias
  {
    var n: nat := ph.vaddr - lo;
    AlignUpShift(base, n + ph.memsz);
    AlignUpShift(lo, n + ph.memsz);
    AlignDownShift(base, n);
    AlignDownShift(lo, n);
  }

  lemma AlignDownShift(a: nat, n: nat)
    requires Aligned(a)
    ensures AlignDown(a + n) == a + AlignDown(n) && (a + n) % PAGE == n % PAGE
  {
    assert a == a / PAGE * PAGE;
  }

  /** A loaded segment stays loaded while other pages change. */
  lemma SegmentKept(m1: Memory, m2: Memory, file: seq<bv8>, ph: Phdr, start: nat, lo: nat, hi: nat)
    requires SegmentLoaded(m1, file, ph, start) && OnlyChanged(m1, m2, lo, hi)
    requires AlignUp(start + ph.memsz) <= lo || hi <= AlignDown(start)
    ensures SegmentLoaded(m2, file, ph, start)
  {
    forall a: nat | InSpan(a, AlignDown(start), AlignUp(start + ph.memsz)) ensures SegmentCell(m2, file, ph, start, a) {
      assert SegmentCell(m1, file, ph, start, a) && SameCell(m1, m2, a);
    }
  }

  datatype LoadResult =
    | Loaded(start: nat, size: nat, bias: int)
    | NotReserved(why: Reservation)
    | BadSegment(i: nat, start: nat, size: nat)

  /** The kernel's answers: to the reservation, and which segments' file and zero mappings it grants. */
  datatype Kernel = Kernel(host: Host, fileOk: set<nat>, zeroOk: set<nat>)

  predicate Ok(phdrs: seq<Phdr>, file: seq<bv8>, kernel: Kernel, i: nat)
    requires i < |phdrs|
  {
    phdrs[i].load ==> SegmentOk(phdrs[i], file, i in kernel.fileOk, i in kernel.zeroOk)
  }

  ghost predicate SegmentAt(mem: Memory, file: seq<bv8>, ph: Phdr, bias: int) {
    ph.vaddr + bias >= 0 && SegmentLoaded(mem, file, ph, ph.vaddr + bias)
  }

  predicate Covered(phdrs: seq<Phdr>, bias: int, a: nat) {
    exists ph | ph in phdrs :: ph.load && InSegment(ph, bias, a)
  }

  /** The segments are in place, and what no segment covers is still reserved and inaccessible. */
  ghost predicate Built(mem: Memory, file: seq<bv8>, phdrs: seq<Phdr>, bias: int, lo: nat, hi: nat) {
    && (forall i | 0 <= i < |phdrs| && phdrs[i].load :: SegmentAt(mem, file, phdrs[i], bias))
    && (forall a: nat | InSpan(a, lo, hi) && !Covered(phdrs, bias, a) :: a in mem && mem[a] == Cell(0, PROT_NONE))
  }

  lemma EarlierKept(m1: Memory, m2: Memory, file: seq<bv8>, ph: Phdr, other: Phdr, base: nat, lo: nat)
    requires Aligned(base) && Aligned(lo) && lo <= ph.vaddr && lo <= other.vaddr
    requires PageDisjoint(other, ph) && SegmentAt(m1, file, other, base - lo)
    requires var start := ph.vaddr + (base - lo); OnlyChanged(m1, m2, AlignDown(start), AlignUp(start + ph.memsz))
    ensures SegmentAt(m2, file, other, base - lo)
  {
    var bias := base - lo;
    ShiftedSegment(ph, bias, base, lo);
    ShiftedSegment(other, bias, base, lo);
    var from, to := AlignDown(ph.vaddr + bias), AlignUp(ph.vaddr + bias + ph.memsz);
    SegmentKept(m1, m2, file, other, other.vaddr + bias, from, to);
  }

  lemma OutsideKept(m1: Memory, m2: Memory, ph: Phdr, base: nat, lo: nat, a: nat)
    requires Aligned(base) && Aligned(lo) && lo <= ph.vaddr && !InSegment(ph, base - lo, a)
    requires var start := ph.vaddr + (base - lo); OnlyChanged(m1, m2, AlignDown(start), AlignUp(start + ph.memsz))
    ensures SameCell(m1, m2, a)
  {
    ShiftedSegment(ph, base - lo, base, lo);
  }

  /** The page range of length size from lo holds every loadable segment. */
  ghost predicate Fits(phdrs: seq<Phdr>, lo: nat, size: nat) {
    Aligned(lo) && forall i | 0 <= i < |phdrs| && phdrs[i].load :: Holds(lo, lo + size, phdrs[i])
  }

  lemma SegmentPlace(ph: Phdr, lo: nat, size: nat, base: nat)
    requires Aligned(lo) && Aligned(base) && Holds(lo, lo + size, ph)
    ensures var start := ph.vaddr + (base - lo);
            && lo <= ph.vaddr && start >= 0 && start % PAGE == ph.vaddr % PAGE
            && base <= AlignDown(start) && AlignUp(start + ph.memsz) <= base + size
  {
    AlignFacts(ph.vaddr);
    ShiftedSegment(ph, base - lo, base, lo);
  }

  lemma BuildOne(m1: Memory, m2: Memory, file: seq<bv8>, phdrs: seq<Phdr>, i: nat, lo: nat, size: nat, base: nat)
    requires FileFormat(phdrs) && i < |phdrs| && phdrs[i].load && Aligned(base) && Fits(phdrs, lo, size)
    requires Built(m1, file, phdrs[..i], base - lo, base, base + size)
    requires SegmentAt(m2, file, phdrs[i], base - lo)
    requires var start := phdrs[i].vaddr + (base - lo);
             OnlyChanged(m1, m2, AlignDown(start), AlignUp(start + phdrs[i].memsz))
    ensures Built(m2, file, phdrs[..i + 1], base - lo, base, base + size)
  {
    var bias, ph, hi := base - lo, phdrs[i], base + size;
    SegmentPlace(ph, lo, size, base);
    assert phdrs[..i + 1] == phdrs[..i] + [ph];
    forall j | 0 <= j < i && phdrs[j].load ensures SegmentAt(m2, file, phdrs[j], bias) {
      assert SegmentAt(m1, file, phdrs[..i][j], bias);
      SegmentPlace(phdrs[j], lo, size, base);
      EarlierKept(m1, m2, file, ph, phdrs[j], base, lo);
    }
    forall a: nat | InSpan(a, base, hi) && !Covered(phdrs[..i + 1], bias, a)
      ensures a in m2 && m2[a] == Cell(0, PROT_NONE)
    {
      assert ph in phdrs[..i + 1] && !InSegment(ph, bias, a);
      assert !Covered(phdrs[..i], bias, a);
      OutsideKept(m1, m2, ph, base, lo, a);
    }
  }

  /**
   Loads the file. Success means every segment is acceptable and the reservation holds exactly the image; a
   failure names the first unacceptable segment. Memory outside the reservation never changes.
   */
  method LoadSegments(space: AddressSpace, file: seq<bv8>, exec: bool, phdrs: seq<Phdr>, align: nat, kernel: Kernel)
    returns (r: LoadResult)
    requires FileFormat(phdrs) && (align <= PAGE || PowerOf2(align))
    requires HostAnswer(space.mem, kernel.host, Asked(LoadSize(phdrs), exec, align))
    modifies space
    ensures r.Loaded? ==>
              && (forall i | 0 <= i < |phdrs| :: Ok(phdrs, file, kernel, i))
              && Free(old(space.mem), r.start, r.start + r.size)
              && OnlyChanged(old(space.mem), space.mem, r.start, r.start + r.size)
              && Built(space.mem, file, phdrs, r.bias, r.start, r.start + r.size)
              && r.size == LoadSize(phdrs) && r.bias == r.start - LoadMin(phdrs)
              && (exec ==> r.bias == 0) && (!exec && align > PAGE ==> r.start % align == 0)
    ensures r.BadSegment? ==>
              && r.i < |phdrs| && !Ok(phdrs, file, kernel, r.i)
              && (forall j | 0 <= j < r.i :: Ok(phdrs, file, kernel, j))
    ensures r.BadSegment? ==>
              && Free(old(space.mem), r.start, r.start + r.size)
              && OnlyChanged(old(space.mem), space.mem, r.start, r.start + r.size)
              && r.size == LoadSize(phdrs)
    ensures r.NotReserved? <==>
              LoadSize(phdrs) == 0 || kernel.host.Refused? || (exec && kernel.host.addr != LoadMin(phdrs))
    ensures r.NotReserved? ==> SameMemory(old(space.mem), space.mem)
  {
    var reservation := ReserveAddressSpace(space, exec, phdrs, align, kernel.host);
    if !reservation.Reserved? {
      return NotReserved(reservation);
    }
    ghost var reserved := space.mem;
    var start, size := reservation.start, reservation.size;
    ExtentFits(phdrs);
    var i := LoadAll(space, file, phdrs, LoadMin(phdrs), size, start, kernel);
    ChangesNest(old(space.mem), reserved, space.mem, start, start + size, start, start + size);
    return if i < |phdrs| then BadSegment(i, start, size) else Loaded(start, size, reservation.bias);
  }

  lemma ExtentFits(phdrs: seq<Phdr>)
    requires NoOverflow(phdrs)
    ensures LoadSize(phdrs) >= 0 && Fits(phdrs, LoadMin(phdrs), LoadSize(phdrs))
  {
    LoadExtent(phdrs);
    AlignFacts(if AnyLoad(phdrs) then MinVaddr(phdrs) else 0);
  }

  /** Loads the segments in table order up to the first unacceptable one. */
  method LoadAll(space: AddressSpace, file: seq<bv8>, phdrs: seq<Phdr>, lo: nat, ghost size: nat, base: nat,
                 kernel: Kernel) returns (i: nat)
    requires FileFormat(phdrs) && Aligned(base) && Fits(phdrs, lo, size)
    requires Inaccessible(space.mem, base, base + size)
    modifies space
    ensures i <= |phdrs| && (forall j | 0 <= j < i :: Ok(phdrs, file, kernel, j))
    ensures i < |phdrs| ==> !Ok(phdrs, file, kernel, i)
    ensures i == |phdrs| ==> Built(space.mem, file, phdrs, base - lo, base, base + size)
    ensures OnlyChanged(old(space.mem), space.mem, base, base + size)
  {
    i := 0;
    while i < |phdrs|
      invariant i <= |phdrs| && (forall j | 0 <= j < i :: Ok(phdrs, file, kernel, j))
      invariant Built(space.mem, file, phdrs[..i], base - lo, base, base + size)
      invariant OnlyChanged(old(space.mem), space.mem, base, base + size)
    {
      ghost var before := space.mem;
      var ok := LoadOne(space, file, phdrs, i, lo, size, base, kernel);
      ChangesNest(old(space.mem), before, space.mem, base, base + size, base, base + size);
      if !ok {
        return;
      }
      i := i + 1;
    }
    assert phdrs[..|phdrs|] == phdrs;
  }

  lemma BuildSkip(mem: Memory, file: seq<bv8>, phdrs: seq<Phdr>, i: nat, bias: int, lo: nat, hi: nat)
    requires i < |phdrs| && !phdrs[i].load && Built(mem, file, phdrs[..i], bias, lo, hi)
    ensures Built(mem, file, phdrs[..i + 1], bias, lo, hi)
  {
    assert phdrs[..i + 1] == phdrs[..i] + [phdrs[i]];
    forall a: nat | InSpan(a, lo, hi) && !Covered(phdrs[..i + 1], bias, a) ensures !Covered(phdrs[..i], bias, a) {
    }
  }

  method LoadOne(space: AddressSpace, file: seq<bv8>, phdrs: seq<Phdr>, i: nat, lo: nat, ghost size: nat, base: nat,
                 kernel: Kernel) returns (ok: bool)
    requires FileFormat(phdrs) && i < |phdrs| && Aligned(base) && Fits(phdrs, lo, size)
    requires Built(space.mem, file, phdrs[..i], base - lo, base, base + size)
    modifies space
    ensures ok <==> Ok(phdrs, file, kernel, i)
    ensures ok ==> Built(space.mem, file, phdrs[..i + 1], base - lo, base, base + size)
    ensures OnlyChanged(old(space.mem), space.mem, base, base + size)
  {
    var ph := phdrs[i];
    if !ph.load {
      BuildSkip(space.mem, file, phdrs, i, base - lo, base, base + size);
      return true;
    }
    SegmentPlace(ph, lo, size, base);
    var start: nat := ph.vaddr + ((base as int) - lo);
    ok := LoadSegment(space, file, ph, start, i in kernel.fileOk, i in kernel.zeroOk);
    Widen(old(space.mem), space.mem, AlignDown(start), AlignUp(start + ph.memsz), base, base + size);
    if ok {
      BuildOne(old(space.mem), space.mem, file, phdrs, i, lo, size, base);
    }
  }
}
