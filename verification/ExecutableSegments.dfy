/**
 Registering the executable segments of the objects the guest linker has loaded. A link map entry is given
 together with what its first page holds at the moment of the call, because objects may rewrite or erase
 their headers after loading.
 */
module ExecutableSegments {
  import opened Pages
  import opened Shadow

  const PT_LOAD: nat := 1
  const PF_X: bv32 := 1
  const ELF_MAGIC: seq<nat> := [0x7f, 0x45, 0x4c, 0x46]
  const EM_AARCH64: nat := 183
  const PHDR_SIZE: nat := 56

  datatype Phdr = Phdr(kind: nat, flags: bv32, vaddr: nat, memsz: nat)

  datatype Ehdr = Ehdr(ident: seq<nat>, machine: nat, phentsize: nat, phdrs: seq<Phdr>)

  datatype Link = Link(id: nat, addr: nat, name: string, header: Ehdr)

  datatype Range = Range(start: nat, size: nat)

  datatype Object = Object(link: nat, base: nat, ranges: seq<Range>)

  predicate Known(objects: seq<Object>, l: Link) {
    exists o | o in objects :: o.link == l.id && o.base == l.addr
  }

  predicate Loadable(l: Link) {
    && l.addr != 0 && l.name != "[vdso]"
    && l.header.ident == ELF_MAGIC && l.header.machine == EM_AARCH64 && l.header.phentsize == PHDR_SIZE
    && 0 < |l.header.phdrs| <= 128
  }

  predicate ExecSegment(h: Phdr) {
    h.kind == PT_LOAD && h.flags & PF_X != 0 && h.memsz != 0
  }

  function RangesOf(base: nat, phdrs: seq<Phdr>): seq<Range> {
    if phdrs == [] then [] else
      var last := phdrs[|phdrs| - 1];
      RangesOf(base, phdrs[..|phdrs| - 1]) + if ExecSegment(last) then [Range(base + last.vaddr, last.memsz)] else []
  }

  /** Page p shares a byte with the segment in an object loaded at base. */
  predicate SharesByte(base: nat, h: Phdr, p: nat) {
    p * PAGE < base + h.vaddr + h.memsz && base + h.vaddr < (p + 1) * PAGE
  }

  /** Page p has code of an object loaded at base. */
  predicate HasCode(base: nat, phdrs: seq<Phdr>, p: nat) {
    exists h | h in phdrs :: h.kind == PT_LOAD && h.flags & PF_X != 0 && h.memsz != 0 && SharesByte(base, h, p)
  }

  /** The ranges of an object cover exactly the pages that have its code. */
  lemma {:induction false} CoversExactly(base: nat, phdrs: seq<Phdr>, p: nat)
    ensures Covers(RangesOf(base, phdrs), p) <==> HasCode(base, phdrs, p)
  {
    if phdrs != [] {
      var rest, last := phdrs[..|phdrs| - 1], phdrs[|phdrs| - 1];
      CoversExactly(base, rest, p);
      assert phdrs == rest + [last];
      if ExecSegment(last) {
        PagesTouched(base + last.vaddr, last.memsz, p);
        var range := Range(base + last.vaddr, last.memsz);
        assert RangesOf(base, phdrs) == RangesOf(base, rest) + [range];
        CoversOneMore(RangesOf(base, rest), range, p);
      }
    }
  }

  lemma CoversOneMore(ranges: seq<Range>, range: Range, p: nat)
    ensures Covers(ranges + [range], p) <==> Covers(ranges, p) || p in PagesOf(range.start, range.size)
  {
    assert range in ranges + [range];
  }

  /** The first entry find_if would return. */
  function Find(objects: seq<Object>, l: Link): (o: Object)
    requires Known(objects, l)
    ensures o in objects && o.link == l.id && o.base == l.addr
  {
    if objects[0].link == l.id && objects[0].base == l.addr then objects[0] else
      assert exists o | o in objects[1..] :: o.link == l.id && o.base == l.addr;
      Find(objects[1..], l)
  }

  predicate New(objects: seq<Object>, l: Link) {
    !Known(objects, l) && Loadable(l)
  }

  function Current(objects: seq<Object>, links: seq<Link>): seq<Object> {
    if links == [] then [] else
      var l := links[|links| - 1];
      Current(objects, links[..|links| - 1]) +
      if Known(objects, l) then [Find(objects, l)]
      else if Loadable(l) then [Object(l.id, l.addr, RangesOf(l.addr, l.header.phdrs))]
      else []
  }

  predicate Covers(ranges: seq<Range>, p: nat) {
    exists r | r in ranges :: p in PagesOf(r.start, r.size)
  }

  /** The entry is one of the links of the call. */
  predicate Present(links: seq<Link>, o: Object) {
    exists l | l in links :: l.id == o.link && l.addr == o.base
  }

  /** A page of an executable segment of a newly loaded object. */
  predicate Loads(objects: seq<Object>, links: seq<Link>, p: nat) {
    p < PAGE_COUNT && exists l | l in links :: New(objects, l) && HasCode(l.addr, l.header.phdrs, p)
  }

  /** A page of an executable segment of an object that is gone. */
  predicate Unloads(objects: seq<Object>, links: seq<Link>, p: nat) {
    exists o | o in objects :: !Present(links, o) && Covers(o.ranges, p)
  }

  ghost predicate Synced(before: set<nat>, after: set<nat>, objects: seq<Object>, links: seq<Link>) {
    forall p: nat :: p in after <==> Loads(objects, links, p) || (p in before && !Unloads(objects, links, p))
  }

  class LinkerExecutableSegments {
    var objects: seq<Object>

    constructor ()
      ensures objects == []
    {
      objects := [];
    }

    method Snapshot(l: Link) returns (ranges: seq<Range>)
      ensures ranges == RangesOf(l.addr, l.header.phdrs)
      ensures forall p: nat :: Covers(ranges, p) <==> HasCode(l.addr, l.header.phdrs, p)
    {
      ranges := [];
      var phdrs := l.header.phdrs;
      for i := 0 to |phdrs|
        invariant ranges == RangesOf(l.addr, phdrs[..i])
      {
        assert phdrs[..i + 1][..i] == phdrs[..i];
        if ExecSegment(phdrs[i]) {
          ranges := ranges + [Range(l.addr + phdrs[i].vaddr, phdrs[i].memsz)];
        }
      }
      assert phdrs[..|phdrs|] == phdrs;
      forall p: nat ensures Covers(ranges, p) <==> HasCode(l.addr, phdrs, p) {
        CoversExactly(l.addr, phdrs, p);
      }
    }

    method Collect(links: seq<Link>) returns (current: seq<Object>, added: seq<Range>)
      ensures current == Current(objects, links)
      ensures forall p: nat :: p < PAGE_COUNT && Covers(added, p) <==> Loads(objects, links, p)
    {
      current, added := [], [];
      for i := 0 to |links|
        invariant current == Current(objects, links[..i])
        invariant forall p: nat :: p < PAGE_COUNT && Covers(added, p) <==> Loads(objects, links[..i], p)
      {
        var l := links[i];
        assert links[..i + 1] == links[..i] + [l];
        if Known(objects, l) {
          current := current + [Find(objects, l)];
          continue;
        }
        if l.addr == 0 || l.name == "[vdso]" {
          continue;
        }
        var ehdr := l.header;
        if ehdr.ident != ELF_MAGIC || ehdr.machine != EM_AARCH64 || ehdr.phentsize != PHDR_SIZE ||
           |ehdr.phdrs| == 0 || |ehdr.phdrs| > 128 {
          continue;
        }
        var ranges := Snapshot(l);
        assert forall p: nat :: Covers(added + ranges, p) <==> Covers(added, p) || Covers(ranges, p);
        added := added + ranges;
        current := current + [Object(l.id, l.addr, ranges)];
      }
      assert links[..|links|] == links;
    }

    /** What a call does to every page, and which objects it remembers. */
    method Sync(links: seq<Link>, shadow: GuestMapShadow)
      requires shadow.Valid()
      modifies this, shadow.shadow, shadow.cache
      ensures shadow.Valid()
      ensures objects == Current(old(objects), links)
      ensures Synced(old(shadow.Exec()), shadow.Exec(), old(objects), links)
    {
      var current, added := Collect(links);
      forall o | o in objects ensures Listed(current, o) <==> Present(links, o) {
        ListedPresent(objects, links, o);
      }
      for i := 0 to |objects|
        invariant shadow.Valid() && objects == old(objects)
        invariant forall p: nat ::
            p in shadow.Exec() <==> p in old(shadow.Exec()) && !Unloads(objects[..i], links, p)
      {
        var o := objects[i];
        assert objects[..i + 1] == objects[..i] + [o];
        if !Listed(current, o) {
          ClearRanges(o.ranges, shadow);
        }
      }
      assert objects[..|objects|] == objects;
      SetRanges(added, shadow);
      objects := current;
    }
  }

  method ClearRanges(ranges: seq<Range>, shadow: GuestMapShadow)
    requires shadow.Valid()
    modifies shadow.shadow, shadow.cache
    ensures shadow.Valid()
    ensures forall p: nat :: p in shadow.Exec() <==> p in old(shadow.Exec()) && !Covers(ranges, p)
  {
    for i := 0 to |ranges|
      invariant shadow.Valid()
      invariant forall p: nat :: p in shadow.Exec() <==> p in old(shadow.Exec()) && !Covers(ranges[..i], p)
    {
      assert ranges[..i + 1] == ranges[..i] + [ranges[i]];
      shadow.ClearExecutable(ranges[i].start, ranges[i].size);
    }
    assert ranges[..|ranges|] == ranges;
  }

  method SetRanges(ranges: seq<Range>, shadow: GuestMapShadow)
    requires shadow.Valid()
    modifies shadow.shadow
    ensures shadow.Valid()
    ensures forall p: nat :: p in shadow.Exec() <==> p in old(shadow.Exec()) || (p < PAGE_COUNT && Covers(ranges, p))
  {
    for i := 0 to |ranges|
      invariant shadow.Valid()
      invariant forall p: nat ::
          p in shadow.Exec() <==> p in old(shadow.Exec()) || (p < PAGE_COUNT && Covers(ranges[..i], p))
    {
      assert ranges[..i + 1] == ranges[..i] + [ranges[i]];
      shadow.SetExecutable(ranges[i].start, ranges[i].size);
    }
    assert ranges[..|ranges|] == ranges;
  }

  predicate Listed(current: seq<Object>, o: Object) {
    exists c | c in current :: c.link == o.link && c.base == o.base
  }

  /** Looking an old object up in the new list is looking it up in the link map. */
  lemma {:induction false} ListedPresent(objects: seq<Object>, links: seq<Link>, o: Object)
    requires o in objects
    ensures Listed(Current(objects, links), o) <==> Present(links, o)
  {
    if links != [] {
      var l, rest := links[|links| - 1], links[..|links| - 1];
      ListedPresent(objects, rest, o);
      assert links == rest + [l];
      if l.id == o.link && l.addr == o.base {
        assert Known(objects, l);
        assert Find(objects, l) in Current(objects, links);
      }
    }
  }

  /** Linker updates mixed with the guest's own protection changes. */
  datatype Event = Sync(links: seq<Link>) | Protect(start: nat, size: nat, on: bool)

  datatype State = State(objects: seq<Object>, exec: set<nat>)

  datatype Touch = Untouched | Touched(on: bool)

  function TouchOf(objects: seq<Object>, e: Event, p: nat): Touch {
    match e
    case Sync(links) =>
      if Loads(objects, links, p) then Touched(true)
      else if Unloads(objects, links, p) then Touched(false)
      else Untouched
    case Protect(start, size, on) =>
      if p in PagesOf(start, size) && (on ==> p < PAGE_COUNT) then Touched(on) else Untouched
  }

  /** One event does to the state what Sync, SetExecutable and ClearExecutable do to the fields. */
  ghost predicate Next(s: State, e: Event, t: State) {
    match e
    case Sync(links) => t.objects == Current(s.objects, links) && Synced(s.exec, t.exec, s.objects, links)
    case Protect(start, size, on) =>
      && t.objects == s.objects
      && t.exec == if on then s.exec + Mappable(PagesOf(start, size)) else s.exec - PagesOf(start, size)
  }

  /** A run: states[i + 1] follows states[i] by events[i], and nothing was loaded at the start. */
  ghost predicate Run(states: seq<State>, events: seq<Event>) {
    && |states| == |events| + 1 && states[0].objects == []
    && forall i | 0 <= i < |events| :: Next(states[i], events[i], states[i + 1])
  }

  /** The object was unknown to the call at i, which read its segments then; every later call still saw it. */
  ghost predicate LoadedAt(states: seq<State>, events: seq<Event>, o: Object, i: nat)
    requires |states| == |events| + 1
  {
    && i < |events| && events[i].Sync?
    && (exists l | l in events[i].links ::
          && l.id == o.link && l.addr == o.base && New(states[i].objects, l)
          && o.ranges == RangesOf(l.addr, l.header.phdrs)
          && forall p: nat :: Covers(o.ranges, p) <==> HasCode(l.addr, l.header.phdrs, p))
    && forall j | i < j < |events| && events[j].Sync? :: Present(events[j].links, o)
  }

  lemma {:induction false} CurrentFrom(objects: seq<Object>, links: seq<Link>, o: Object)
    requires o in Current(objects, links)
    ensures Present(links, o)
    ensures o in objects || exists l | l in links ::
                              && l.id == o.link && l.addr == o.base && New(objects, l)
                              && o.ranges == RangesOf(l.addr, l.header.phdrs)
                              && forall p: nat :: Covers(o.ranges, p) <==> HasCode(l.addr, l.header.phdrs, p)
  {
    var l, rest := links[|links| - 1], links[..|links| - 1];
    assert links == rest + [l];
    if o in Current(objects, rest) {
      CurrentFrom(objects, rest, o);
    } else {
      assert l in links;
      forall p: nat ensures Covers(RangesOf(l.addr, l.header.phdrs), p) <==> HasCode(l.addr, l.header.phdrs, p) {
        CoversExactly(l.addr, l.header.phdrs, p);
      }
    }
  }

  /** What a call remembers of a link: the object as it was known, or a new one with the segments read now. */
  predicate RemembersAs(objects: seq<Object>, l: Link, o: Object) {
    && o.link == l.id && o.base == l.addr
    && if Known(objects, l) then o == Find(objects, l) else Loadable(l) && o.ranges == RangesOf(l.addr, l.header.phdrs)
  }

  lemma {:induction false} RemembersExactly(objects: seq<Object>, links: seq<Link>, o: Object)
    ensures o in Current(objects, links) <==> exists l | l in links :: RemembersAs(objects, l, o)
  {
    if links != [] {
      var l, rest := links[|links| - 1], links[..|links| - 1];
      assert links == rest + [l];
      RemembersExactly(objects, rest, o);
      assert l in links;
      assert RemembersAs(objects, l, o) <==> o in Current(objects, links)[|Current(objects, rest)|..];
    }
  }

  /** A link that is not known is passed over exactly if it has no address, is the vdso, or shows no usable header. */
  lemma PassedOverExactly(objects: seq<Object>, l: Link)
    requires !Known(objects, l)
    ensures Current(objects, [l]) == [] <==>
            || l.addr == 0 || l.name == "[vdso]"
            || l.header.ident != [0x7f, 0x45, 0x4c, 0x46] || l.header.machine != 183 || l.header.phentsize != 56
            || l.header.phdrs == [] || 128 < |l.header.phdrs|
    ensures Current(objects, [l]) == [] ==> forall p :: !Loads(objects, [l], p)
  {
    assert [l][..0] == [] && Current(objects, []) == [];
  }

  /** Every remembered object carries the segments read when it was first seen, over any run. */
  lemma {:induction false} SnapshotAtFirstLoad(states: seq<State>, events: seq<Event>, o: Object) returns (i: nat)
    requires Run(states, events) && o in states[|events|].objects
    ensures LoadedAt(states, events, o, i)
    decreases |events|
  {
    var n := |events| - 1;
    assert Next(states[n], events[n], states[n + 1]);
    i := n;
    if events[n].Sync? {
      CurrentFrom(states[n].objects, events[n].links, o);
    }
    if o in states[n].objects {
      i := SnapshotAtFirstLoad(states[..n + 1], events[..n], o);
    }
  }

  lemma TouchStep(s: State, e: Event, t: State, p: nat)
    requires Next(s, e, t)
    ensures match TouchOf(s.objects, e, p)
            case Touched(on) => p in t.exec <==> on
            case Untouched => p in t.exec <==> p in s.exec
  {
  }

  /** A page's flag is what the last event that touched it made it. */
  lemma {:induction false} LastTouchDecides(states: seq<State>, events: seq<Event>, p: nat, i: nat, k: nat)
    requires Run(states, events) && i <= k <= |events|
    requires forall j | i <= j < k :: TouchOf(states[j].objects, events[j], p) == Untouched
    ensures p in states[k].exec <==> p in states[i].exec
    decreases k
  {
    if i < k {
      LastTouchDecides(states, events, p, i, k - 1);
      TouchStep(states[k - 1], events[k - 1], states[k], p);
    }
  }

  /**
   A remembered object's executable pages are executable, unless something touched the page after the
   object was loaded; later calls that merely see the object again are not such a thing, whatever its header
   has become.
   */
  lemma LoadedStaysExecutable(states: seq<State>, events: seq<Event>, o: Object, p: nat) returns (i: nat)
    requires Run(states, events) && o in states[|events|].objects
    requires Covers(o.ranges, p) && p < PAGE_COUNT
    ensures LoadedAt(states, events, o, i)
    ensures (forall j | i < j < |events| :: TouchOf(states[j].objects, events[j], p) == Untouched)
            ==> p in states[|events|].exec
  {
    i := SnapshotAtFirstLoad(states, events, o);
    TouchStep(states[i], events[i], states[i + 1], p);
    if forall j | i < j < |events| :: TouchOf(states[j].objects, events[j], p) == Untouched {
      LastTouchDecides(states, events, p, i + 1, |events|);
    }
  }
}
