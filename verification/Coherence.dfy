/**
 The executable-page shadow and the translation cache, run together. Translators look at the shadow
 after they have taken the lock of an entry; ClearExecutable clears one page at a time and then, only
 if some bit changed, invalidates the range. Every look, every cleared page and every cache method is
 a step of its own, in any interleaving. Updates that clear pages are serialised.

 Two things can keep an invalidation from covering a page that was cleared. A fork only waits for the cache's
 mutex, so it may come in the middle of a clear: the child has the bits cleared so far and no thread that would
 still invalidate. And a clear from an unaligned start clears the whole first page, but invalidates from the start
 on only. `lost` remembers those pages.
 */
module Coherence {
  import opened Pages
  import opened TranslationCacheSpec
  import opened Safety = TranslationCacheSafety

  /** The local variables of a ClearExecutable call in progress. */
  datatype Clear = Idle | Clearing(start: nat, end: nat, pc: nat, changed: bool)

  datatype World = World(
    sys: Sys,
    exec: set<nat>,
    clear: Clear,
    seen: map<Token, set<nat>>,  // per lock, the pages its holder has found executable
    lost: set<nat>)              // pages cleared and not wholly invalidated; not part of the program

  datatype Act =
    | CacheOp(op: Op)
    | Look(token: Token, page: nat)
    | Install(token: Token, guestSize: nat, kind: Kind, code: nat, hostSize: nat)
    | SetPage(page: nat)
    | ClearBegin(start: nat, size: nat)
    | ClearPage
    | ClearEnd

  const NEW_WORLD: World := World(START, {}, Idle, map[], {})

  function Seen(w: World, t: Token): set<nat> {
    if t in w.seen then w.seen[t] else {}
  }

  /** Kinds that stand for guest code at the pc: translated, or interpreted after the same check. */
  predicate IsTranslation(kind: Kind) {
    kind in {Interpreted, LiteTranslated, HeavyOptimized}
  }

  predicate Enabled(w: World, a: Act) {
    match a
    case CacheOp(op) => !op.Publish? && Allowed(w.sys, op)
    case Look(t, _) => t in w.sys.tokens && !t.wrapping
    case Install(t, size, kind, code, hostSize) =>
      && Allowed(w.sys, Publish(t, size, kind, code, hostSize))
      && (IsTranslation(kind) ==> PagesOf(t.ptr.pc, size) <= Seen(w, t))
    case SetPage(_) => true
    case ClearBegin(_, _) => w.clear.Idle?
    case ClearPage => w.clear.Clearing? && w.clear.pc < w.clear.end
    case ClearEnd => w.clear.Clearing? && w.clear.end <= w.clear.pc
  }

  predicate IsCleared(w: World, p: nat) {
    w.clear.Clearing? && w.clear.start / PAGE <= p < w.clear.pc / PAGE && p !in w.exec
  }

  /** The pages the clear in progress has already cleared. */
  function ClearedSoFar(w: World): set<nat> {
    if w.clear.Idle? then {} else set p | w.clear.start / PAGE <= p < w.clear.pc / PAGE && IsCleared(w, p)
  }

  /** The first page of a clear, when the invalidation does not start with it. */
  function PartlyCovered(start: nat): set<nat> {
    if Aligned(start) then {} else {start / PAGE}
  }

  function OnCache(w: World, op: Op): Outcome<World> {
    match Step(w.sys, op)
    case CheckFailed => CheckFailed
    case Ok(s) => Ok(w.(sys := s))
  }

  function Next(w: World, a: Act): Outcome<World>
    requires Enabled(w, a)
  {
    match a
    case CacheOp(op) =>
      OnCache(if op.ForkChild? then w.(clear := Idle, lost := w.lost + ClearedSoFar(w)) else w, op)
    case Look(t, p) => Ok(if p in w.exec then w.(seen := w.seen[t := Seen(w, t) + {p}]) else w)
    case Install(t, size, kind, code, hostSize) => OnCache(w, Publish(t, size, kind, code, hostSize))
    case SetPage(p) => Ok(w.(exec := w.exec + {p}))
    case ClearBegin(start, size) =>
      Ok(w.(clear := Clearing(start, AlignUp(start + size), AlignDown(start), false)))
    case ClearPage =>
      var p := w.clear.pc / PAGE;
      Ok(w.(exec := w.exec - {p},
            clear := w.clear.(pc := w.clear.pc + PAGE, changed := w.clear.changed || p in w.exec)))
    case ClearEnd =>
      if w.clear.changed
      then OnCache(w.(clear := Idle, lost := w.lost + PartlyCovered(w.clear.start)),
                   Invalidate(w.clear.start, w.clear.end))
      else Ok(w.(clear := Idle))
  }

  /** Published code of a translation kind. */
  predicate Translated(s: Sys, pc: nat) {
    Slot(s.cache, pc).Code? && pc in s.cache.entries && IsTranslation(s.cache.entries[pc].kind)
  }

  function PagesAt(s: Sys, pc: nat): set<nat>
    requires pc in s.cache.entries
  {
    PagesOf(pc, s.cache.entries[pc].guestSize)
  }

  /** Every published translation lies on executable pages. */
  ghost predicate Coherent(s: Sys, exec: set<nat>) {
    forall pc | Translated(s, pc) :: PagesAt(s, pc) <= exec
  }

  /** Executable, about to be covered by the invalidation of the clear in progress, or lost. */
  ghost predicate Covered(w: World, p: nat) {
    || p in w.exec
    || p in w.lost
    || (w.clear.Clearing? && w.clear.changed && w.clear.start / PAGE <= p < w.clear.pc / PAGE)
  }

  ghost predicate AllCovered(w: World, ps: set<nat>) {
    forall p | p in ps :: Covered(w, p)
  }

  ghost predicate TokenCovered(w: World, t: Token) {
    Slot(w.sys.cache, t.ptr.pc) != Invalidating ==> AllCovered(w, Seen(w, t))
  }

  ghost predicate PcCovered(w: World, pc: nat) {
    Translated(w.sys, pc) ==> AllCovered(w, PagesAt(w.sys, pc))
  }

  ghost predicate WorldInv(w: World) {
    && Inv(w.sys)
    && (forall t | t in w.seen :: t.since < w.sys.clock)
    && (w.clear.Clearing? ==>
          && Aligned(w.clear.end) && Aligned(w.clear.pc) && AlignDown(w.clear.start) <= w.clear.pc
          && (w.clear.pc <= w.clear.end || w.clear.pc == AlignDown(w.clear.start)))
    && (forall t | t in w.sys.tokens && !t.wrapping :: TokenCovered(w, t))
    && (forall pc :: PcCovered(w, pc))
  }

  /** Published for guest code, and not a wrapper. */
  predicate Installed(s: Sys, pc: nat) {
    Slot(s.cache, pc).Code? && pc in s.cache.entries && s.cache.entries[pc].kind !in {GuestWrapped, HostWrapped}
  }

  predicate Kept(s: Sys, n: Sys, pc: nat)
    requires Installed(n, pc)
  {
    && Installed(s, pc) && s.cache.entries[pc].kind == n.cache.entries[pc].kind
    && s.cache.entries[pc].guestSize == n.cache.entries[pc].guestSize
  }

  /** A cache operation other than Publish publishes no guest code and gives its locks no sight of the shadow. */
  lemma CacheOpAddsNoTranslation(s: Sys, op: Op)
    requires Inv(s) && Allowed(s, op) && !op.Publish?
    ensures Step(s, op).Ok?
    ensures var n := Step(s, op).value;
            && s.clock < n.clock
            && (forall pc | Installed(n, pc) :: Kept(s, n, pc))
            && (forall t | t in n.tokens :: t in s.tokens || s.clock <= t.since)
            && (forall t | t in n.tokens && t in s.tokens && Slot(n.cache, t.ptr.pc) != Invalidating ::
                  Slot(s.cache, t.ptr.pc) != Invalidating)
  {
    StepKeepsInv(s, op);
    var n := Step(s, op).value;
    match op
    case LockForTranslation(pc, threshold) =>
      AddForTranslationEffect(s.cache, pc, threshold);
      SameElsewhereKeeps(s, n, pc);
    case LockForGearUp(pc) =>
      if pc in s.cache.entries && s.cache.entries[pc].kind == LiteTranslated {
        LockEffect(s.cache, pc);
        SameElsewhereKeeps(s, n, pc);
      }
    case LockForWrapping(pc) =>
      if pc !in s.cache.entries {
        InsertEffect(s.cache, pc, Wrapping, UnderProcessing);
        SameElsewhereKeeps(s, n, pc);
      }
    case PublishWrapper(t, isHost, code, hostSize) =>
      assert TokenOk(s, t);
      if Slot(s.cache, t.ptr.pc) == Invalidating {
        EraseEffect(s.cache, t.ptr.pc);
      } else {
        WrappedEffect(s.cache, t.ptr, isHost, code, hostSize);
      }
      SameElsewhereKeeps(s, n, t.ptr.pc);
    case Invalidate(start, end) =>
      InvalidateEffect(s.cache, start, end);
      forall pc
        ensures Installed(n, pc) ==> Kept(s, n, pc)
        ensures Slot(s.cache, pc) == Invalidating ==> Slot(n.cache, pc) == Invalidating
      {
        assert Invalidated(s.cache, n.cache, pc, start, end);
      }
    case ForkChild =>
      ForkEffect(s.cache);
      forall pc | Installed(n, pc)
        ensures Kept(s, n, pc)
      {
        assert Forked(s.cache, n.cache, pc);
      }
  }

  lemma SameElsewhereKeeps(s: Sys, n: Sys, pc: nat)
    requires Inv(s) && Inv(n) && SameElsewhere(s.cache, n.cache, pc)
    requires !Installed(n, pc) || n.cache == s.cache
    requires forall t | t in n.tokens && t in s.tokens :: t.ptr.pc != pc || n.cache == s.cache
    ensures forall q | Installed(n, q) :: Kept(s, n, q)
    ensures forall t | t in n.tokens && t in s.tokens && Slot(n.cache, t.ptr.pc) != Invalidating ::
              Slot(s.cache, t.ptr.pc) != Invalidating
  {
    assert forall q | q != pc :: SameAt(s.cache, n.cache, q);
    forall q | Installed(n, q)
      ensures Kept(s, n, q)
    {
      assert q != pc ==> SameAt(s.cache, n.cache, q);
    }
    forall t | t in n.tokens && t in s.tokens && Slot(n.cache, t.ptr.pc) != Invalidating
      ensures Slot(s.cache, t.ptr.pc) != Invalidating
    {
      assert t.ptr.pc != pc ==> SameAt(s.cache, n.cache, t.ptr.pc);
    }
  }

  lemma ForkCovers(w: World, n: World, p: nat)
    requires n == w.(sys := n.sys) || n == w.(sys := n.sys, clear := Idle, lost := w.lost + ClearedSoFar(w))
    requires Covered(w, p)
    ensures Covered(n, p)
  {
    assert w.clear.Clearing? && p !in w.exec && p !in w.lost ==> IsCleared(w, p);
  }

  lemma CacheOpKeeps(w: World, op: Op)
    requires WorldInv(w) && Enabled(w, CacheOp(op))
    ensures var r := Next(w, CacheOp(op)); r.Ok? && WorldInv(r.value)
  {
    CacheOpAddsNoTranslation(w.sys, op);
    StepKeepsInv(w.sys, op);
    var n := Next(w, CacheOp(op)).value;
    forall p | Covered(w, p)
      ensures Covered(n, p)
    {
      ForkCovers(w, n, p);
    }
    forall t | t in n.sys.tokens && !t.wrapping
      ensures TokenCovered(n, t)
    {
      if t in w.sys.tokens {
        assert TokenCovered(w, t);
      }
    }
    forall pc
      ensures PcCovered(n, pc)
    {
      assert PcCovered(w, pc);
      if Translated(n.sys, pc) {
        assert Installed(n.sys, pc) && Kept(w.sys, n.sys, pc);
      }
    }
  }

  lemma InstallKeeps(w: World, a: Act)
    requires WorldInv(w) && Enabled(w, a) && a.Install?
    ensures var r := Next(w, a); r.Ok? && WorldInv(r.value)
  {
    var op := Publish(a.token, a.guestSize, a.kind, a.code, a.hostSize);
    var t := a.token;
    PublishKeepsInv(w.sys, op);
    var n := Next(w, a).value;
    assert TokenOk(w.sys, t) && TokenCovered(w, t);
    if Slot(w.sys.cache, t.ptr.pc) == Invalidating {
      EraseEffect(w.sys.cache, t.ptr.pc);
    } else {
      TranslatedEffect(w.sys.cache, t.ptr, a.guestSize, a.kind, a.code, a.hostSize);
    }
    forall u | u in n.sys.tokens && !u.wrapping
      ensures TokenCovered(n, u)
    {
      assert TokenCovered(w, u) && u.ptr.pc != t.ptr.pc;
      assert SameAt(w.sys.cache, n.sys.cache, u.ptr.pc);
    }
    forall pc
      ensures PcCovered(n, pc)
    {
      assert PcCovered(w, pc);
      assert pc != t.ptr.pc ==> SameAt(w.sys.cache, n.sys.cache, pc);
    }
  }

  /** Clearing a page that was executable leaves it covered by the invalidation to come. */
  lemma ShadowActKeeps(w: World, a: Act)
    requires WorldInv(w) && Enabled(w, a) && (a.Look? || a.SetPage? || a.ClearBegin? || a.ClearPage?)
    ensures var r := Next(w, a); r.Ok? && WorldInv(r.value)
  {
    var n := Next(w, a).value;
    forall p | Covered(w, p)
      ensures Covered(n, p)
    {
    }
    forall t | t in n.sys.tokens && !t.wrapping
      ensures TokenCovered(n, t)
    {
      assert TokenCovered(w, t);
    }
    forall pc
      ensures PcCovered(n, pc)
    {
      assert PcCovered(w, pc);
    }
    if a.ClearBegin? {
      AlignFacts(a.start + a.size);
    }
  }

  lemma ClearEndKeeps(w: World)
    requires WorldInv(w) && Enabled(w, ClearEnd)
    ensures var r := Next(w, ClearEnd); r.Ok? && WorldInv(r.value)
  {
    if w.clear.changed {
      InvalidateKeepsInv(w.sys, w.clear.start, w.clear.end);
      var n := Next(w, ClearEnd).value;
      forall t | t in n.sys.tokens && !t.wrapping
        ensures TokenCovered(n, t)
      {
        assert TokenOk(w.sys, t);
        InvalidateEffect(w.sys.cache, w.clear.start, w.clear.end);
        assert Invalidated(w.sys.cache, n.sys.cache, t.ptr.pc, w.clear.start, w.clear.end);
      }
      forall pc
        ensures PcCovered(n, pc)
      {
        if Translated(n.sys, pc) {
          SurvivorCovered(w, pc);
        }
      }
    } else {
      SkippedInvalidationKeeps(w);
    }
  }

  lemma SkippedInvalidationKeeps(w: World)
    requires WorldInv(w) && Enabled(w, ClearEnd) && !w.clear.changed
    ensures WorldInv(w.(clear := Idle))
  {
    var n := w.(clear := Idle);
    forall t | t in w.sys.tokens && !t.wrapping
      ensures TokenCovered(n, t)
    {
      assert TokenCovered(w, t);
    }
    forall pc
      ensures PcCovered(n, pc)
    {
      assert PcCovered(w, pc);
    }
  }

  /** What outlives the invalidation of a clear touches none of the pages it was for, except a partly covered one. */
  lemma SurvivorCovered(w: World, pc: nat)
    requires WorldInv(w) && Enabled(w, ClearEnd) && w.clear.changed && Next(w, ClearEnd).Ok?
    requires Translated(Next(w, ClearEnd).value.sys, pc)
    ensures PcCovered(Next(w, ClearEnd).value, pc)
  {
    var start, end, n := w.clear.start, w.clear.end, Next(w, ClearEnd).value;
    InvalidateEffect(w.sys.cache, start, end);
    assert PcCovered(w, pc) && Invalidated(w.sys.cache, n.sys.cache, pc, start, end);
    assert EntryOk(w.sys.cache, pc);
    forall p | p in PagesAt(n.sys, pc)
      ensures Covered(n, p)
    {
      assert Covered(w, p);
      if start / PAGE <= p < w.clear.pc / PAGE {
        OutsideOnPage(pc, n.sys.cache.entries[pc].guestSize, start, end, p);
      }
    }
  }

  /** A range of code on a page of [start, end) that does not overlap it ends before an unaligned start. */
  lemma OutsideOnPage(pc: nat, size: nat, start: nat, end: nat, p: nat)
    requires 0 < size && p in PagesOf(pc, size) && !Overlaps(pc, size, start, end)
    requires start / PAGE <= p < end / PAGE
    ensures p in PartlyCovered(start)
  {
    PagesTouched(pc, size, p);
  }

  lemma NextKeepsInv(w: World, a: Act)
    requires WorldInv(w) && Enabled(w, a)
    ensures var r := Next(w, a); r.Ok? && WorldInv(r.value)
  {
    match a
    case CacheOp(op) => CacheOpKeeps(w, op);
    case Install(_, _, _, _, _) => InstallKeeps(w, a);
    case ClearEnd => ClearEndKeeps(w);
    case _ => ShadowActKeeps(w, a);
  }

  ghost predicate LegalActs(w: World, acts: seq<Act>)
    decreases |acts|
  {
    acts == [] || (Enabled(w, acts[0]) && (Next(w, acts[0]).Ok? ==> LegalActs(Next(w, acts[0]).value, acts[1..])))
  }

  function RunActs(w: World, acts: seq<Act>): Outcome<World>
    requires LegalActs(w, acts)
    decreases |acts|
  {
    if acts == [] then Ok(w)
    else match Next(w, acts[0])
         case CheckFailed => CheckFailed
         case Ok(n) => RunActs(n, acts[1..])
  }

  lemma {:induction false} RunActsKeepsInv(w: World, acts: seq<Act>)
    requires WorldInv(w) && LegalActs(w, acts)
    ensures RunActs(w, acts).Ok? && WorldInv(RunActs(w, acts).value)
    decreases |acts|
  {
    if acts != [] {
      NextKeepsInv(w, acts[0]);
      RunActsKeepsInv(Next(w, acts[0]).value, acts[1..]);
    }
  }

  /** A published translation touches a lost page that is not executable. */
  ghost predicate TouchesLost(w: World) {
    exists pc | Translated(w.sys, pc) :: PagesAt(w.sys, pc) * (w.lost - w.exec) != {}
  }

  /**
   Over every interleaving of translators, wrappers, invalidations, forks and shadow updates from any start:
   whenever no clear is in progress, every published translation lies on executable pages if and only if none
   touches a lost page.
   */
  lemma ShadowAndCacheCoherent(acts: seq<Act>)
    requires LegalActs(NEW_WORLD, acts)
    ensures var r := RunActs(NEW_WORLD, acts);
            r.Ok? && (r.value.clear.Idle? ==> (Coherent(r.value.sys, r.value.exec) <==> !TouchesLost(r.value)))
  {
    StartInv();
    RunActsKeepsInv(NEW_WORLD, acts);
    var w := RunActs(NEW_WORLD, acts).value;
    if w.clear.Idle? {
      IdleCoherentExactly(w);
    }
  }

  lemma IdleCoherentExactly(w: World)
    requires WorldInv(w) && w.clear.Idle?
    ensures Coherent(w.sys, w.exec) <==> !TouchesLost(w)
  {
    if TouchesLost(w) {
      var pc :| Translated(w.sys, pc) && PagesAt(w.sys, pc) * (w.lost - w.exec) != {};
      var p :| p in PagesAt(w.sys, pc) * (w.lost - w.exec);
      assert p in PagesAt(w.sys, pc) && p !in w.exec;
    } else {
      forall pc | Translated(w.sys, pc)
        ensures PagesAt(w.sys, pc) <= w.exec
      {
        assert PcCovered(w, pc);
        var touched := PagesAt(w.sys, pc) * (w.lost - w.exec);
        forall p | p in PagesAt(w.sys, pc) ensures p in w.exec {
          assert Covered(w, p);
          assert p in w.lost - w.exec ==> p in touched;
        }
      }
    }
  }

  // Runs that lose nothing, and forks in the middle of a clear.

  /** Every fork of the run comes while no clear is in progress, and every clear starts on a page boundary. */
  ghost predicate Orderly(w: World, acts: seq<Act>)
    requires LegalActs(w, acts)
    decreases |acts|
  {
    acts == [] ||
    (&& (acts[0] == CacheOp(ForkChild) ==> w.clear.Idle?)
     && (acts[0].ClearBegin? ==> Aligned(acts[0].start))
     && (Next(w, acts[0]).Ok? ==> Orderly(Next(w, acts[0]).value, acts[1..])))
  }

  /** Such runs lose nothing, so they are coherent between clears. */
  lemma {:induction false} NothingLost(w: World, acts: seq<Act>)
    requires LegalActs(w, acts) && Orderly(w, acts) && w.lost == {} && RunActs(w, acts).Ok?
    requires w.clear.Clearing? ==> Aligned(w.clear.start)
    ensures RunActs(w, acts).value.lost == {}
    decreases |acts|
  {
    if acts != [] {
      NothingLost(Next(w, acts[0]).value, acts[1..]);
    }
  }

  lemma CoherentBetweenClears(acts: seq<Act>)
    requires LegalActs(NEW_WORLD, acts) && Orderly(NEW_WORLD, acts)
    ensures var r := RunActs(NEW_WORLD, acts);
            r.Ok? && (r.value.clear.Idle? ==> Coherent(r.value.sys, r.value.exec))
  {
    ShadowAndCacheCoherent(acts);
    NothingLost(NEW_WORLD, acts);
    var w := RunActs(NEW_WORLD, acts).value;
    assert w.lost - w.exec == {};
    assert !TouchesLost(w);
  }

  /**
   The child of a fork is coherent if and only if no published translation touches a page that the clear in
   progress has already cleared, or that was lost before.
   */
  lemma ForkCoherentExactly(w: World)
    requires WorldInv(w)
    ensures var r := Next(w, CacheOp(ForkChild));
            && r.Ok?
            && (Coherent(r.value.sys, r.value.exec) <==>
                !exists pc | Translated(w.sys, pc) ::
                   PagesAt(w.sys, pc) * (ClearedSoFar(w) + (w.lost - w.exec)) != {})
  {
    NextKeepsInv(w, CacheOp(ForkChild));
    var n := Next(w, CacheOp(ForkChild)).value;
    IdleCoherentExactly(n);
    assert n.lost - n.exec == ClearedSoFar(w) + (w.lost - w.exec);
    ForkEffect(w.sys.cache);
    forall pc
      ensures Translated(n.sys, pc) <==> Translated(w.sys, pc)
      ensures Translated(w.sys, pc) ==> PagesAt(n.sys, pc) == PagesAt(w.sys, pc)
    {
      assert Forked(w.sys.cache, n.sys.cache, pc);
    }
  }

  lemma ThreeActs(w: World, a: Act, b: Act, c: Act, w1: World, w2: World, n: World)
    requires Enabled(w, a) && Next(w, a) == Ok(w1) && Enabled(w1, b) && Next(w1, b) == Ok(w2)
    requires Enabled(w2, c) && Next(w2, c) == Ok(n)
    ensures LegalActs(w, [a, b, c]) && RunActs(w, [a, b, c]) == Ok(n)
  {
    assert [a, b, c][1..] == [b, c] && [b, c][1..] == [c] && [c][1..] == [];
    assert LegalActs(n, []) && RunActs(n, []) == Ok(n);
    assert LegalActs(w2, [c]) && RunActs(w2, [c]) == Ok(n);
    assert LegalActs(w1, [b, c]) && RunActs(w1, [b, c]) == Ok(n);
  }

  lemma OnePage(p: nat)
    ensures Aligned(PAGE * p) && AlignDown(PAGE * p) == PAGE * p && AlignUp(PAGE * p + PAGE) == PAGE * p + PAGE
    ensures (PAGE * p) / PAGE == p && (PAGE * p + PAGE) / PAGE == p + 1
  {
    assert PAGE * p + PAGE == PAGE * (p + 1);
    AlignFacts(PAGE * p + PAGE);
  }

  /** A fork just after the first page of a clear: any translation on that page is stale in the child. */
  lemma ForkLosesClear(w: World, pc: nat, p: nat)
    requires WorldInv(w) && w.clear.Idle? && Translated(w.sys, pc) && p in PagesAt(w.sys, pc)
    ensures var acts := [ClearBegin(PAGE * p, PAGE), ClearPage, CacheOp(ForkChild)];
            && LegalActs(w, acts) && RunActs(w, acts).Ok?
            && var n := RunActs(w, acts).value; n.clear.Idle? && !Coherent(n.sys, n.exec)
  {
    var begin, fork := ClearBegin(PAGE * p, PAGE), CacheOp(ForkChild);
    OnePage(p);
    NextKeepsInv(w, begin);
    var w1 := Next(w, begin).value;
    NextKeepsInv(w1, ClearPage);
    var w2 := Next(w1, ClearPage).value;
    assert IsCleared(w2, p);
    assert p in PagesAt(w2.sys, pc) * (ClearedSoFar(w2) + (w2.lost - w2.exec));
    ForkCoherentExactly(w2);
    ThreeActs(w, begin, ClearPage, fork, w1, w2, Next(w2, fork).value);
  }

  // Starts that are not page aligned.

  /** What ClearExecutable from any start does to the cache, given the pages executable before. */
  function CacheAfterClear(c: Cache, exec: set<nat>, start: nat, size: nat): Cache {
    if exec * PagesOf(start, size) == {} then c else InvalidateGuestRange(c, start, AlignUp(start + size)).cache
  }

  /** ClearExecutable with nothing interleaved. */
  function ClearAtOnce(s: Sys, exec: set<nat>, start: nat, size: nat): (Sys, set<nat>) {
    (s.(cache := CacheAfterClear(s.cache, exec, start, size)), exec - PagesOf(start, size))
  }

  /** Clearing pages that are clear already invalidates nothing, so it does not make up for a clear that was cut off. */
  lemma ClearAgainDoesNothing(s: Sys, exec: set<nat>, start: nat, size: nat)
    requires exec !! PagesOf(start, size)
    ensures ClearAtOnce(s, exec, start, size) == (s, exec)
  {
    assert exec * PagesOf(start, size) == {} && exec - PagesOf(start, size) == exec;
  }

  /** A published translation that ends on the first cleared page, before the address the caller passed. */
  ghost predicate EndsBeforeStart(s: Sys, start: nat) {
    exists pc: nat | Translated(s, pc) :: AlignDown(start) < pc + s.cache.entries[pc].guestSize <= start
  }

  /**
   The shadow clears whole pages but the cache is told the caller's own start. Coherence survives
   exactly when no translation ends between the page boundary and that start.
   */
  lemma ClearCoherentExactly(s: Sys, exec: set<nat>, start: nat, size: nat)
    requires Inv(s) && Coherent(s, exec)
    ensures var (n, left) := ClearAtOnce(s, exec, start, size);
            Coherent(n, left) <==> !EndsBeforeStart(s, start)
  {
    var (n, left) := ClearAtOnce(s, exec, start, size);
    var end := AlignUp(start + size);
    AlignFacts(start);
    AlignFacts(start + size);
    InvalidateEffect(s.cache, start, end);
    if EndsBeforeStart(s, start) {
      var pc: nat :| Translated(s, pc) && AlignDown(start) < pc + s.cache.entries[pc].guestSize <= start;
      assert EntryOk(s.cache, pc);
      var p := start / PAGE;
      PagesTouched(pc, s.cache.entries[pc].guestSize, p);
      assert p in PagesAt(s, pc) && p in exec;
      assert p in PagesOf(start, size);
      assert Invalidated(s.cache, InvalidateGuestRange(s.cache, start, end).cache, pc, start, end);
      assert Translated(n, pc) && p in PagesAt(n, pc) && p !in left;
    } else {
      forall pc | Translated(n, pc)
        ensures PagesAt(n, pc) <= left
      {
        SurvivorStaysCoherent(s, exec, start, size, pc);
      }
    }
  }

  /**
   The same with anything interleaved between the steps of the clear. When nothing was lost before, the end of a
   clear is coherent exactly when no translation ends before the start on a first page that is still cleared.
   */
  lemma ClearEndCoherentExactly(w: World)
    requires WorldInv(w) && Enabled(w, ClearEnd) && w.lost == {}
    ensures Next(w, ClearEnd).Ok?
    ensures var n := Next(w, ClearEnd).value;
            Coherent(n.sys, n.exec) <==> w.clear.start / PAGE in w.exec || !EndsBeforeStart(w.sys, w.clear.start)
  {
    NextKeepsInv(w, ClearEnd);
    var start, first := w.clear.start, w.clear.start / PAGE;
    var n := Next(w, ClearEnd).value;
    IdleCoherentExactly(n);
    AlignFacts(start);
    if first !in w.exec && EndsBeforeStart(w.sys, start) {
      var pc: nat :| Translated(w.sys, pc) && AlignDown(start) < pc + w.sys.cache.entries[pc].guestSize <= start;
      EndingTranslationSurvives(w, pc);
    } else {
      forall pc | Translated(n.sys, pc)
        ensures PagesAt(n.sys, pc) * (n.lost - n.exec) == {}
      {
        LateTranslationCovered(w, pc);
      }
    }
  }

  lemma EndingTranslationSurvives(w: World, pc: nat)
    requires WorldInv(w) && Enabled(w, ClearEnd) && Next(w, ClearEnd).Ok? && w.clear.start / PAGE !in w.exec
    requires Translated(w.sys, pc)
    requires AlignDown(w.clear.start) < pc + w.sys.cache.entries[pc].guestSize <= w.clear.start
    ensures var n := Next(w, ClearEnd).value;
            && Translated(n.sys, pc) && w.clear.start / PAGE in PagesAt(n.sys, pc)
            && w.clear.start / PAGE !in n.exec
  {
    var start, end, n := w.clear.start, w.clear.end, Next(w, ClearEnd).value;
    assert EntryOk(w.sys.cache, pc);
    AlignFacts(start);
    PagesTouched(pc, w.sys.cache.entries[pc].guestSize, start / PAGE);
    if w.clear.changed {
      InvalidateEffect(w.sys.cache, start, end);
      assert Invalidated(w.sys.cache, n.sys.cache, pc, start, end);
    }
  }

  lemma LateTranslationCovered(w: World, pc: nat)
    requires WorldInv(w) && Enabled(w, ClearEnd) && Next(w, ClearEnd).Ok? && w.lost == {}
    requires w.clear.start / PAGE in w.exec || !EndsBeforeStart(w.sys, w.clear.start)
    requires Translated(Next(w, ClearEnd).value.sys, pc)
    ensures var n := Next(w, ClearEnd).value; PagesAt(n.sys, pc) * (n.lost - n.exec) == {}
  {
    var start, end, n := w.clear.start, w.clear.end, Next(w, ClearEnd).value;
    AlignFacts(start);
    if w.clear.changed && !Aligned(start) && start / PAGE !in w.exec {
      InvalidateEffect(w.sys.cache, start, end);
      assert Invalidated(w.sys.cache, n.sys.cache, pc, start, end);
      assert EntryOk(w.sys.cache, pc) && PcCovered(w, pc);
      assert n.lost == {start / PAGE};
      PagesTouched(pc, n.sys.cache.entries[pc].guestSize, start / PAGE);
    } else {
      assert n.lost - n.exec == {};
    }
  }

  const FIRST_LOCK: Token := Token(EntryPtr(0, 0), false, 0)

  /** The entry at address 0 locked for translation. */
  const LOCKED: Sys :=
    Sys(Cache(map[0 := Translating], map[0 := Entry(0, 0, 1, UnderProcessing, 0)], {EntryPtr(0, 0)}, 1, 1),
        {FIRST_LOCK}, map[], [], 1)

  /** One instruction at address 0, translated and published. */
  const ONE_INSN: Sys :=
    Sys(Cache(map[0 := Code(7)], map[0 := Entry(0, 1, 4, LiteTranslated, 0)], {}, 4, 1), {},
        map[0 := Product(0, 4, LiteTranslated, 7, 1)], [], 2)

  lemma LockedReached()
    ensures Step(START, LockForTranslation(0, 0)) == Ok(LOCKED)
  {
    var t, e := FIRST_LOCK, Entry(0, 0, 1, Interpreted, 0);
    assert map[0 := NotTranslated][0 := Translating] == map[0 := Translating];
    assert map[0 := e][0 := e.(kind := UnderProcessing)] == LOCKED.cache.entries;
    assert Insert(INITIAL, 0, NotTranslated, Interpreted) == Cache(map[0 := NotTranslated], map[0 := e], {}, 1, 1);
    assert {} + {t.ptr} == {t.ptr} && {} + {t} == {t};
    assert AddAndLockForTranslation(INITIAL, 0, 0) == Ok(LockReply(LOCKED.cache, Some(t.ptr)));
  }

  lemma OneInsnReached()
    ensures Step(LOCKED, Publish(FIRST_LOCK, 4, LiteTranslated, 7, 1)) == Ok(ONE_INSN)
  {
    var t := FIRST_LOCK;
    assert LOCKED.cache.slots[0 := Code(7)] == ONE_INSN.cache.slots;
    assert LOCKED.cache.entries[0 := LOCKED.cache.entries[0].(hostSize := 1, guestSize := 4, kind := LiteTranslated)] ==
           ONE_INSN.cache.entries;
    assert {t.ptr} - {t.ptr} == {} && {t} - {t} == {};
    assert SetTranslatedAndUnlock(LOCKED.cache, t.ptr, 4, LiteTranslated, 7, 1) == Ok(ONE_INSN.cache);
  }

  lemma FirstPage(size: nat)
    requires 0 < size <= PAGE
    ensures PagesOf(0, size) == {0}
  {
    forall p: nat ensures p in PagesOf(0, size) <==> p == 0 {
      PagesTouched(0, size, p);
    }
  }

  /** Page 0 becomes executable and the instruction on it is translated. */
  const TRANSLATE: seq<Act> :=
    [CacheOp(LockForTranslation(0, 0)), SetPage(0), Look(FIRST_LOCK, 0), Install(FIRST_LOCK, 4, LiteTranslated, 7, 1)]

  lemma TranslateReached()
    ensures LegalActs(NEW_WORLD, TRANSLATE)
    ensures RunActs(NEW_WORLD, TRANSLATE) == Ok(World(ONE_INSN, {0}, Idle, map[FIRST_LOCK := {0}], {}))
  {
    LockedReached();
    OneInsnReached();
    FirstPage(4);
    var a := TRANSLATE;
    var w1 := NEW_WORLD.(sys := LOCKED);
    var w2 := w1.(exec := {0});
    var w3 := w2.(seen := map[FIRST_LOCK := {0}]);
    var w4 := w3.(sys := ONE_INSN);
    assert {} + {0} == {0};
    assert w2.seen[FIRST_LOCK := Seen(w2, FIRST_LOCK) + {0}] == w3.seen;
    assert Next(NEW_WORLD, a[0]) == Ok(w1) && Next(w1, a[1]) == Ok(w2) && Next(w2, a[2]) == Ok(w3);
    assert Next(w3, a[3]) == Ok(w4);
    assert a[1..][1..] == a[2..] && a[2..][1..] == a[3..] && a[3..][1..] == [];
    assert LegalActs(w4, []) && RunActs(w4, []) == Ok(w4);
    assert LegalActs(w3, a[3..]) && RunActs(w3, a[3..]) == Ok(w4);
    assert LegalActs(w2, a[2..]) && RunActs(w2, a[2..]) == Ok(w4);
    assert LegalActs(w1, a[1..]) && RunActs(w1, a[1..]) == Ok(w4);
  }

  lemma {:induction false} ActsJoin(w: World, a: seq<Act>, b: seq<Act>)
    requires LegalActs(w, a) && RunActs(w, a).Ok? && LegalActs(RunActs(w, a).value, b)
    ensures LegalActs(w, a + b) && RunActs(w, a + b) == RunActs(RunActs(w, a).value, b)
    decreases |a|
  {
    if a == [] {
      assert a + b == b;
    } else {
      ActsJoin(Next(w, a[0]).value, a[1..], b);
      assert (a + b)[1..] == a[1..] + b;
    }
  }

  /** A fork between a clear's first bit and its invalidation leaves the child with a stale translation. */
  lemma ForkExample()
    ensures var acts := TRANSLATE + [ClearBegin(0, PAGE), ClearPage, CacheOp(ForkChild)];
            && LegalActs(NEW_WORLD, acts) && RunActs(NEW_WORLD, acts).Ok?
            && var n := RunActs(NEW_WORLD, acts).value; n.clear.Idle? && !Coherent(n.sys, n.exec)
  {
    StartInv();
    TranslateReached();
    RunActsKeepsInv(NEW_WORLD, TRANSLATE);
    FirstPage(4);
    var w := RunActs(NEW_WORLD, TRANSLATE).value;
    ForkLosesClear(w, 0, 0);
    ActsJoin(NEW_WORLD, TRANSLATE, [ClearBegin(PAGE * 0, PAGE), ClearPage, CacheOp(ForkChild)]);
  }

  /** The smallest failing case: that translation outlives a clear that starts at the next instruction. */
  lemma UnalignedClearExample()
    ensures var (n, left) := ClearAtOnce(ONE_INSN, {0}, 4, 4);
            Coherent(ONE_INSN, {0}) && !Coherent(n, left)
  {
    var (n, left) := ClearAtOnce(ONE_INSN, {0}, 4, 4);
    FirstPage(4);
    forall p: nat
      ensures p in PagesOf(4, 4) <==> p == 0
    {
      PagesTouched(4, 4, p);
    }
    assert PagesOf(4, 4) == {0};
    assert InvalidateTranslating(ONE_INSN.cache) == ONE_INSN.cache by {
      assert InvalidateTranslating(ONE_INSN.cache).slots == ONE_INSN.cache.slots;
      assert InvalidateTranslating(ONE_INSN.cache).entries == ONE_INSN.cache.entries;
    }
    assert AlignUp(8) == PAGE && !InRange(ONE_INSN.cache, 0, 4, PAGE);
    assert Slot(n.cache, 0) == Code(7);
    assert Translated(n, 0) && 0 in PagesAt(n, 0) && 0 !in left;
  }

  /** An undisturbed clear of one page from inside it, on which a translation ends before the start. */
  lemma UnalignedClearRun(w: World, start: nat, size: nat)
    requires WorldInv(w) && w.clear.Idle? && w.lost == {} && start / PAGE in w.exec && EndsBeforeStart(w.sys, start)
    requires AlignUp(start + size) == AlignDown(start) + PAGE
    ensures var acts := [ClearBegin(start, size), ClearPage, ClearEnd];
            && LegalActs(w, acts) && RunActs(w, acts).Ok?
            && var n := RunActs(w, acts).value; n.clear.Idle? && !Coherent(n.sys, n.exec)
  {
    NextKeepsInv(w, ClearBegin(start, size));
    var w1 := Next(w, ClearBegin(start, size)).value;
    NextKeepsInv(w1, ClearPage);
    var w2 := Next(w1, ClearPage).value;
    AlignFacts(start);
    ClearEndCoherentExactly(w2);
    ThreeActs(w, ClearBegin(start, size), ClearPage, ClearEnd, w1, w2, Next(w2, ClearEnd).value);
  }

  /** The world after that translation. */
  const TRANSLATED: World := World(ONE_INSN, {0}, Idle, map[FIRST_LOCK := {0}], {})

  lemma TranslatedInv()
    ensures WorldInv(TRANSLATED) && LegalActs(NEW_WORLD, TRANSLATE) && RunActs(NEW_WORLD, TRANSLATE) == Ok(TRANSLATED)
  {
    StartInv();
    TranslateReached();
    RunActsKeepsInv(NEW_WORLD, TRANSLATE);
  }

  /** The same as a run from the empty world. */
  lemma UnalignedRunExample()
    ensures var acts := TRANSLATE + [ClearBegin(4, 4), ClearPage, ClearEnd];
            && LegalActs(NEW_WORLD, acts) && RunActs(NEW_WORLD, acts).Ok?
            && var n := RunActs(NEW_WORLD, acts).value; n.clear.Idle? && !Coherent(n.sys, n.exec)
  {
    TranslatedInv();
    assert Translated(ONE_INSN, 0) && EndsBeforeStart(ONE_INSN, 4);
    UnalignedClearRun(TRANSLATED, 4, 4);
    ActsJoin(NEW_WORLD, TRANSLATE, [ClearBegin(4, 4), ClearPage, ClearEnd]);
  }

  lemma SurvivorStaysCoherent(s: Sys, exec: set<nat>, start: nat, size: nat, pc: nat)
    requires Inv(s) && Coherent(s, exec) && !EndsBeforeStart(s, start)
    requires Translated(ClearAtOnce(s, exec, start, size).0, pc)
    ensures var (n, left) := ClearAtOnce(s, exec, start, size); PagesAt(n, pc) <= left
  {
    var (n, left) := ClearAtOnce(s, exec, start, size);
    var end := AlignUp(start + size);
    InvalidateEffect(s.cache, start, end);
    assert Invalidated(s.cache, InvalidateGuestRange(s.cache, start, end).cache, pc, start, end);
    assert Translated(s, pc) && PagesAt(n, pc) == PagesAt(s, pc) <= exec;
    assert EntryOk(s.cache, pc);
    AlignFacts(start);
    AlignFacts(start + size);
    forall p | p in PagesAt(n, pc)
      ensures p in left
    {
      PagesTouched(pc, s.cache.entries[pc].guestSize, p);
      assert p in PagesOf(start, size) ==> p in exec * PagesOf(start, size);
    }
  }

  // The other way round: entries published for pages that were not executable.

  /** The stub published for code that could not be executed. */
  predicate NoExecStub(s: Sys, pc: nat) {
    Installed(s, pc) && s.cache.entries[pc].kind == SpecialHandler
  }

  /** Every stub still stands for a page that is not executable. */
  ghost predicate StubsRight(s: Sys, exec: set<nat>) {
    forall pc | NoExecStub(s, pc) :: !(PagesAt(s, pc) <= exec)
  }

  /** Making the last missing page of a stub executable, or publishing a stub after its pages have become so. */
  ghost predicate OutdatesStub(w: World, a: Act) {
    match a
    case SetPage(p) => exists pc | NoExecStub(w.sys, pc) :: PagesAt(w.sys, pc) - w.exec == {p}
    case Install(t, size, kind, _, _) =>
      kind == SpecialHandler && Slot(w.sys.cache, t.ptr.pc) != Invalidating && PagesOf(t.ptr.pc, size) <= w.exec
    case _ => false
  }

  /** SetExecutable does not invalidate, so it may outdate stubs; exactly these steps do. */
  lemma StubsStayRightExactly(w: World, a: Act)
    requires WorldInv(w) && Enabled(w, a) && StubsRight(w.sys, w.exec)
    ensures Next(w, a).Ok?
    ensures var n := Next(w, a).value; StubsRight(n.sys, n.exec) <==> !OutdatesStub(w, a)
  {
    NextKeepsInv(w, a);
    var n := Next(w, a).value;
    match a
    case CacheOp(op) =>
      CacheOpAddsNoTranslation(w.sys, op);
      StubsKept(w.sys, n.sys, w.exec);
    case Install(_, _, _, _, _) => StubInstallExactly(w, a);
    case ClearEnd =>
      if w.clear.changed {
        CacheOpAddsNoTranslation(w.sys, Invalidate(w.clear.start, w.clear.end));
        StubsKept(w.sys, n.sys, w.exec);
      }
    case SetPage(p) =>
      forall pc | NoExecStub(w.sys, pc)
        ensures PagesAt(n.sys, pc) <= n.exec <==> PagesAt(w.sys, pc) - w.exec == {p}
      {
        LastMissing(PagesAt(w.sys, pc), w.exec, p);
      }
    case _ =>
  }

  lemma LastMissing(ps: set<nat>, exec: set<nat>, p: nat)
    requires !(ps <= exec)
    ensures ps <= exec + {p} <==> ps - exec == {p}
  {
    if ps <= exec + {p} {
      assert ps - exec <= {p} && ps - exec != {};
    }
  }

  lemma StubsKept(s: Sys, n: Sys, exec: set<nat>)
    requires StubsRight(s, exec) && forall pc | Installed(n, pc) :: Kept(s, n, pc)
    ensures StubsRight(n, exec)
  {
    forall pc | NoExecStub(n, pc) ensures !(PagesAt(n, pc) <= exec) {
      assert Kept(s, n, pc) && NoExecStub(s, pc);
    }
  }

  lemma StubInstallExactly(w: World, a: Act)
    requires WorldInv(w) && Enabled(w, a) && a.Install? && StubsRight(w.sys, w.exec)
    ensures Next(w, a).Ok?
    ensures var n := Next(w, a).value; StubsRight(n.sys, n.exec) <==> !OutdatesStub(w, a)
  {
    NextKeepsInv(w, a);
    var t, n := a.token, Next(w, a).value;
    var pc := t.ptr.pc;
    assert TokenOk(w.sys, t);
    if Slot(w.sys.cache, pc) == Invalidating {
      EraseEffect(w.sys.cache, pc);
    } else {
      TranslatedEffect(w.sys.cache, t.ptr, a.guestSize, a.kind, a.code, a.hostSize);
      assert n.sys.cache.entries[pc].guestSize == a.guestSize;
    }
    forall q | q != pc ensures NoExecStub(n.sys, q) ==> NoExecStub(w.sys, q) && PagesAt(n.sys, q) == PagesAt(w.sys, q) {
      assert SameAt(w.sys.cache, n.sys.cache, q);
    }
    if OutdatesStub(w, a) {
      assert NoExecStub(n.sys, pc) && PagesAt(n.sys, pc) <= n.exec;
    }
  }

  /** While a stub is published, no lock for translating its address is given, whatever the threshold. */
  lemma StubBlocksTranslation(s: Sys, pc: nat, threshold: nat)
    requires Inv(s) && NoExecStub(s, pc)
    ensures Step(s, LockForTranslation(pc, threshold)) == Ok(s.(clock := s.clock + 1))
    ensures Step(s, LockForGearUp(pc)) == Ok(s.(clock := s.clock + 1))
  {
    assert EntryOk(s.cache, pc);
    assert s.tokens + {} == s.tokens;
    assert s.cache.slots[pc := s.cache.slots[pc]] == s.cache.slots;
  }

  /** An invalidation whose range overlaps the entry at pc. */
  predicate Hits(w: World, a: Act, pc: nat) {
    match a
    case CacheOp(op) => op.Invalidate? && InRange(w.sys.cache, pc, op.start, op.end)
    case ClearEnd => w.clear.Clearing? && w.clear.changed && InRange(w.sys.cache, pc, w.clear.start, w.clear.end)
    case _ => false
  }

  /** A published stub stays through exactly the steps that do not invalidate its own range. */
  lemma StubStaysExactly(w: World, a: Act, pc: nat)
    requires WorldInv(w) && Enabled(w, a) && NoExecStub(w.sys, pc)
    ensures Next(w, a).Ok?
    ensures NoExecStub(Next(w, a).value.sys, pc) <==> !Hits(w, a, pc)
  {
    NextKeepsInv(w, a);
    match a
    case CacheOp(op) => StubOutlivesOp(w.sys, op, pc);
    case Install(t, size, kind, code, hostSize) =>
      assert TokenOk(w.sys, t);
      if Slot(w.sys.cache, t.ptr.pc) == Invalidating {
        EraseEffect(w.sys.cache, t.ptr.pc);
      } else {
        TranslatedEffect(w.sys.cache, t.ptr, size, kind, code, hostSize);
      }
      assert SameAt(w.sys.cache, Next(w, a).value.sys.cache, pc);
    case ClearEnd =>
      if w.clear.changed {
        StubOutlivesOp(w.sys, Invalidate(w.clear.start, w.clear.end), pc);
      }
    case _ =>
  }

  lemma StubOutlivesOp(s: Sys, op: Op, pc: nat)
    requires Inv(s) && Allowed(s, op) && !op.Publish? && NoExecStub(s, pc)
    ensures Step(s, op).Ok?
    ensures NoExecStub(Step(s, op).value, pc) <==> !(op.Invalidate? && InRange(s.cache, pc, op.start, op.end))
  {
    StepKeepsInv(s, op);
    var n := Step(s, op).value;
    match op
    case LockForTranslation(q, threshold) =>
      if q == pc {
        StubBlocksTranslation(s, pc, threshold);
      } else {
        AddForTranslationEffect(s.cache, q, threshold);
        assert SameAt(s.cache, n.cache, pc);
      }
    case LockForGearUp(q) =>
      if q in s.cache.entries && s.cache.entries[q].kind == LiteTranslated {
        LockEffect(s.cache, q);
        assert SameAt(s.cache, n.cache, pc);
      }
    case LockForWrapping(q) =>
      if q !in s.cache.entries {
        InsertEffect(s.cache, q, Wrapping, UnderProcessing);
        assert SameAt(s.cache, n.cache, pc);
      }
    case PublishWrapper(t, isHost, code, hostSize) =>
      assert TokenOk(s, t);
      if Slot(s.cache, t.ptr.pc) == Invalidating {
        EraseEffect(s.cache, t.ptr.pc);
      } else {
        WrappedEffect(s.cache, t.ptr, isHost, code, hostSize);
      }
      assert SameAt(s.cache, n.cache, pc);
    case Invalidate(start, end) =>
      InvalidateEffect(s.cache, start, end);
      assert Invalidated(s.cache, n.cache, pc, start, end);
    case ForkChild =>
      ForkEffect(s.cache);
      assert Forked(s.cache, n.cache, pc);
  }

  ghost predicate NoLockAt(s: Sys, pc: nat) {
    forall t | t in s.tokens :: t.ptr.pc != pc
  }

  /** The stub is published, and nobody may translate its address, in every state of the run. */
  ghost predicate StubThroughout(w: World, acts: seq<Act>, pc: nat)
    requires LegalActs(w, acts)
    decreases |acts|
  {
    && NoExecStub(w.sys, pc) && NoLockAt(w.sys, pc)
    && (acts != [] && Next(w, acts[0]).Ok? ==> StubThroughout(Next(w, acts[0]).value, acts[1..], pc))
  }

  /** No step of the run invalidates a range that overlaps the entry at pc. */
  ghost predicate NeverHit(w: World, acts: seq<Act>, pc: nat)
    requires LegalActs(w, acts)
    decreases |acts|
  {
    acts == [] ||
    (!Hits(w, acts[0], pc) && (Next(w, acts[0]).Ok? ==> NeverHit(Next(w, acts[0]).value, acts[1..], pc)))
  }

  /**
   Over every run: a stub stays, and keeps its address from being translated, until its own range is invalidated
   and no longer. Making its pages executable is not enough.
   */
  lemma {:induction false} StubLastsExactly(w: World, acts: seq<Act>, pc: nat)
    requires WorldInv(w) && LegalActs(w, acts) && NoExecStub(w.sys, pc)
    ensures StubThroughout(w, acts, pc) <==> NeverHit(w, acts, pc)
    decreases |acts|
  {
    forall t | t in w.sys.tokens
      ensures t.ptr.pc != pc
    {
      assert TokenOk(w.sys, t);
    }
    if acts != [] {
      StubStaysExactly(w, acts[0], pc);
      NextKeepsInv(w, acts[0]);
      if !Hits(w, acts[0], pc) {
        StubLastsExactly(Next(w, acts[0]).value, acts[1..], pc);
      }
    }
  }

  /** A stub for the compressed instruction at 0. */
  const STUB: Sys :=
    Sys(Cache(map[0 := Code(9)], map[0 := Entry(0, 0, 2, SpecialHandler, 0)], {}, 2, 1), {},
        map[0 := Product(0, 2, SpecialHandler, 9, 0)], [], 2)

  lemma StubReached()
    ensures Step(LOCKED, Publish(FIRST_LOCK, 2, SpecialHandler, 9, 0)) == Ok(STUB)
  {
    var t := FIRST_LOCK;
    assert LOCKED.cache.slots[0 := Code(9)] == STUB.cache.slots;
    assert LOCKED.cache.entries[0 := LOCKED.cache.entries[0].(hostSize := 0, guestSize := 2, kind := SpecialHandler)] ==
           STUB.cache.entries;
    assert {t.ptr} - {t.ptr} == {} && {t} - {t} == {};
    assert SetTranslatedAndUnlock(LOCKED.cache, t.ptr, 2, SpecialHandler, 9, 0) == Ok(STUB.cache);
  }

  /** The stub is published, then page 0 is made executable: the stub is wrong from then on. */
  lemma OutdatedStubExample()
    ensures var acts := [CacheOp(LockForTranslation(0, 0)), Install(FIRST_LOCK, 2, SpecialHandler, 9, 0), SetPage(0)];
            && LegalActs(NEW_WORLD, acts) && RunActs(NEW_WORLD, acts) == Ok(World(STUB, {0}, Idle, map[], {}))
    ensures NoExecStub(STUB, 0) && !StubsRight(STUB, {0})
  {
    LockedReached();
    StubReached();
    FirstPage(2);
    var install := Install(FIRST_LOCK, 2, SpecialHandler, 9, 0);
    var a := [CacheOp(LockForTranslation(0, 0)), install, SetPage(0)];
    var w1 := NEW_WORLD.(sys := LOCKED);
    var w2 := NEW_WORLD.(sys := STUB);
    var w3 := w2.(exec := {0});
    assert {} + {0} == {0};
    assert Next(NEW_WORLD, a[0]) == Ok(w1) && Next(w1, install) == Ok(w2) && Next(w2, SetPage(0)) == Ok(w3);
    assert a[1..][1..] == a[2..] && a[2..][1..] == [];
    assert LegalActs(w3, []) && RunActs(w3, []) == Ok(w3);
    assert LegalActs(w2, a[2..]) && RunActs(w2, a[2..]) == Ok(w3);
    assert LegalActs(w1, a[1..]) && RunActs(w1, a[1..]) == Ok(w3);
    assert PagesAt(STUB, 0) == {0};
  }
}
