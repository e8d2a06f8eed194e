/**
 Runs of the translation cache by any number of threads. The state is the cache plus a history:
 the locks handed out and not yet returned, the time each lock was taken, what each producer has
 published, and every range that has been invalidated and when. Only the cache is part of the program;
 the history is what the safety properties speak about.
 */
module TranslationCacheSafety {
  import opened TranslationCacheSpec

  /** A lock handed to a producer at time `since`. */
  datatype Token = Token(ptr: EntryPtr, wrapping: bool, since: nat)

  datatype Inval = Inval(start: nat, end: nat, at: nat)

  /** What a producer published, as it handed it over, and when its lock was taken. */
  datatype Product = Product(since: nat, guestSize: nat, kind: Kind, code: nat, hostSize: nat)

  datatype Sys = Sys(
    cache: Cache,
    tokens: set<Token>,
    made: map<nat, Product>,  // per pc, the last product that went live
    invals: seq<Inval>,
    clock: nat)

  datatype Op =
    | LockForTranslation(pc: nat, threshold: nat)
    | LockForGearUp(pc: nat)
    | Publish(token: Token, guestSize: nat, kind: Kind, code: nat, hostSize: nat)
    | LockForWrapping(pc: nat)
    | PublishWrapper(token: Token, isHostFunc: bool, code: nat, hostSize: nat)
    | Invalidate(start: nat, end: nat)
    | ForkChild

  const START: Sys := Sys(INITIAL, {}, map[], [], 0)

  /** What callers owe the cache: a producer returns a lock it holds, once, with a fit kind and size. */
  predicate Allowed(s: Sys, op: Op) {
    match op
    case Publish(t, size, kind, _, _) =>
      t in s.tokens && !t.wrapping && 0 < size && kind !in {UnderProcessing, GuestWrapped, HostWrapped}
    case PublishWrapper(t, _, _, _) => t in s.tokens && t.wrapping
    case _ => true
  }

  function Grant(s: Sys, r: LockReply, wrapping: bool): Sys {
    s.(cache := r.cache,
       tokens := s.tokens + if r.ptr.Some? then {Token(r.ptr.value, wrapping, s.clock)} else {},
       clock := s.clock + 1)
  }

  /** A wrapper stands for one byte of guest code. */
  function ProductOf(op: Op): Product
    requires op.Publish? || op.PublishWrapper?
  {
    match op
    case Publish(t, size, kind, code, hostSize) => Product(t.since, size, kind, code, hostSize)
    case PublishWrapper(t, isHost, code, hostSize) =>
      Product(t.since, 1, if isHost then HostWrapped else GuestWrapped, code, hostSize)
  }

  function Return(s: Sys, t: Token, c: Cache, m: Product): Sys {
    s.(cache := c,
       tokens := s.tokens - {t},
       made := if Slot(c, t.ptr.pc).Code? then s.made[t.ptr.pc := m] else s.made,
       clock := s.clock + 1)
  }

  function Step(s: Sys, op: Op): Outcome<Sys> {
    match op
    case LockForTranslation(pc, threshold) =>
      (match AddAndLockForTranslation(s.cache, pc, threshold)
       case CheckFailed => CheckFailed
       case Ok(r) => Ok(Grant(s, r, false)))
    case LockForGearUp(pc) =>
      (match LockForGearUpTranslation(s.cache, pc)
       case CheckFailed => CheckFailed
       case Ok(r) => Ok(Grant(s, r, false)))
    case Publish(t, size, kind, code, hostSize) =>
      (match SetTranslatedAndUnlock(s.cache, t.ptr, size, kind, code, hostSize)
       case CheckFailed => CheckFailed
       case Ok(c) => Ok(Return(s, t, c, ProductOf(op))))
    case LockForWrapping(pc) => Ok(Grant(s, AddAndLockForWrapping(s.cache, pc), true))
    case PublishWrapper(t, isHost, code, hostSize) =>
      (match SetWrappedAndUnlock(s.cache, t.ptr, isHost, code, hostSize)
       case CheckFailed => CheckFailed
       case Ok(c) => Ok(Return(s, t, c, ProductOf(op))))
    case Invalidate(start, end) =>
      Ok(s.(cache := InvalidateGuestRange(s.cache, start, end).cache,
            invals := s.invals + [Inval(start, end, s.clock)],
            clock := s.clock + 1))
    case ForkChild =>
      Ok(s.(cache := FinishForkInChild(s.cache), tokens := {}, clock := s.clock + 1))
  }

  // Effects of one method on the cache alone.

  /** Slot and entry of every other pc are untouched. */
  ghost predicate SameElsewhere(c: Cache, d: Cache, pc: nat) {
    forall q | q != pc :: SameAt(c, d, q)
  }

  ghost predicate SameAt(c: Cache, d: Cache, q: nat) {
    && Slot(d, q) == Slot(c, q)
    && (q in d.entries <==> q in c.entries)
    && (q in c.entries ==> d.entries[q] == c.entries[q])
  }

  lemma LockEffect(c: Cache, pc: nat)
    requires CacheInv(c) && pc in c.entries
    requires Slot(c, pc) == NotTranslated || c.entries[pc].kind == LiteTranslated
    ensures var r := LockForTranslationUnsafe(c, pc);
            && r.Ok? && CacheInv(r.value.cache) && SameElsewhere(c, r.value.cache, pc)
            && r.value.ptr == Some(PtrTo(c, pc)) && Live(r.value.cache, PtrTo(c, pc))
            && r.value.cache.entries[pc].kind == UnderProcessing
            && Slot(r.value.cache, pc) == Translating
  {
    assert EntryOk(c, pc);
    var d := LockForTranslationUnsafe(c, pc).value.cache;
    forall q | q in d.entries
      ensures EntryOk(d, q)
    {
      assert EntryOk(c, q);
    }
  }

  lemma InsertEffect(c: Cache, pc: nat, code: HostCode, kind: Kind)
    requires CacheInv(c) && pc !in c.entries
    requires (code == NotTranslated && kind == Interpreted) || (code == Wrapping && kind == UnderProcessing)
    ensures CacheInv(Insert(c, pc, code, kind)) && SameElsewhere(c, Insert(c, pc, code, kind), pc)
  {
    var d := Insert(c, pc, code, kind);
    assert EntryPtr(pc, c.nextId) !in c.translating;
    forall q | q in d.entries
      ensures EntryOk(d, q)
    {
      if q != pc {
        assert EntryOk(c, q);
      }
    }
  }

  lemma EraseEffect(c: Cache, pc: nat)
    requires CacheInv(c) && Slot(c, pc) == Invalidating && pc in c.entries
    ensures CacheInv(Erase(c, pc)) && SameElsewhere(c, Erase(c, pc), pc)
  {
    var d := Erase(c, pc);
    assert EntryOk(c, pc);
    forall q | q in d.entries
      ensures EntryOk(d, q)
    {
      assert EntryOk(c, q);
    }
  }

  // Invariants of runs.

  /** Slot and entry of pc are what its producer handed over. */
  ghost predicate IsProduct(c: Cache, pc: nat, m: Product) {
    && Slot(c, pc) == Code(m.code) && pc in c.entries
    && c.entries[pc].guestSize == m.guestSize && c.entries[pc].kind == m.kind && c.entries[pc].hostSize == m.hostSize
  }

  /**
   Code in the slot of pc is as its producer published it, under a lock taken after the last invalidation of the
   guest range the producer gave.
   */
  ghost predicate NotStale(s: Sys, pc: nat) {
    Slot(s.cache, pc).Code? ==>
      && pc in s.made && IsProduct(s.cache, pc, s.made[pc])
      && forall i | 0 <= i < |s.invals| ::
           Overlaps(pc, s.made[pc].guestSize, s.invals[i].start, s.invals[i].end) ==> s.invals[i].at < s.made[pc].since
  }

  ghost predicate NoStaleCode(s: Sys) {
    forall pc :: NotStale(s, pc)
  }

  /** The lock names a live entry under processing, in a state its producer expects to find. */
  ghost predicate TokenOk(s: Sys, t: Token) {
    && Live(s.cache, t.ptr)
    && s.cache.entries[t.ptr.pc].kind == UnderProcessing
    && t.since < s.clock
    && Slot(s.cache, t.ptr.pc) in (if t.wrapping then {Wrapping, Invalidating} else {Translating, Invalidating})
  }

  ghost predicate Held(s: Sys, pc: nat) {
    exists t | t in s.tokens :: t.ptr.pc == pc
  }

  /** Locks are exclusive, never dangle, and are exactly the entries under processing. */
  ghost predicate LocksExact(s: Sys) {
    && (forall t | t in s.tokens :: TokenOk(s, t))
    && (forall t, u | t in s.tokens && u in s.tokens && t.ptr.pc == u.ptr.pc :: t == u)
    && (forall pc | Unfinished(s.cache, pc) :: Held(s, pc))
  }

  /** The invalidation came after the lock and, for a wrapper, covers its pc. */
  ghost predicate OvertakenBy(t: Token, v: Inval) {
    t.since <= v.at && (t.wrapping ==> Overlaps(t.ptr.pc, 1, v.start, v.end))
  }

  /** A producer's slot is Invalidating exactly when an invalidation has overtaken it. */
  ghost predicate Fresh(s: Sys, t: Token) {
    Slot(s.cache, t.ptr.pc) == Invalidating <==> exists i | 0 <= i < |s.invals| :: OvertakenBy(t, s.invals[i])
  }

  ghost predicate HistoryOk(s: Sys) {
    && (forall i | 0 <= i < |s.invals| :: s.invals[i].at < s.clock)
    && (forall t | t in s.tokens :: Fresh(s, t))
  }

  ghost predicate Inv(s: Sys) {
    CacheInv(s.cache) && LocksExact(s) && HistoryOk(s) && NoStaleCode(s)
  }

  lemma GrantKeepsInv(s: Sys, r: LockReply, wrapping: bool, pc: nat)
    requires Inv(s) && CacheInv(r.cache) && SameElsewhere(s.cache, r.cache, pc)
    requires !Unfinished(s.cache, pc)
    requires r.ptr.None? ==> !Slot(r.cache, pc).Code? || SameAt(s.cache, r.cache, pc)
    requires r.ptr.None? ==> !Unfinished(r.cache, pc)
    requires r.ptr.Some? ==> r.ptr.value.pc == pc && Live(r.cache, r.ptr.value)
    requires r.ptr.Some? ==> r.cache.entries[pc].kind == UnderProcessing
    requires r.ptr.Some? ==> Slot(r.cache, pc) == if wrapping then Wrapping else Translating
    ensures Inv(Grant(s, r, wrapping))
  {
    var n := Grant(s, r, wrapping);
    forall t | t in n.tokens
      ensures TokenOk(n, t) && Fresh(n, t)
    {
      if t in s.tokens {
        assert TokenOk(s, t) && Fresh(s, t);
        assert t.ptr.pc != pc;
        assert SameAt(s.cache, r.cache, t.ptr.pc);
      }
    }
    forall q
      ensures NotStale(n, q)
    {
      assert NotStale(s, q);
      assert q != pc ==> SameAt(s.cache, r.cache, q);
    }
    forall q | Unfinished(n.cache, q)
      ensures Held(n, q)
    {
      if q == pc {
        assert Token(r.ptr.value, wrapping, s.clock) in n.tokens;
      } else {
        assert SameAt(s.cache, r.cache, q) && Held(s, q);
        var t :| t in s.tokens && t.ptr.pc == q;
        assert t in n.tokens;
      }
    }
  }

  lemma RefusalKeepsInv(s: Sys)
    requires Inv(s)
    ensures Inv(Grant(s, LockReply(s.cache, None), false)) && Inv(Grant(s, LockReply(s.cache, None), true))
  {
    var n := s.(clock := s.clock + 1);
    assert Grant(s, LockReply(s.cache, None), false) == n == Grant(s, LockReply(s.cache, None), true);
    forall t | t in n.tokens
      ensures TokenOk(n, t) && Fresh(n, t)
    {
      assert TokenOk(s, t) && Fresh(s, t);
    }
    forall pc
      ensures NotStale(n, pc)
    {
      assert NotStale(s, pc);
    }
    forall pc | Unfinished(n.cache, pc)
      ensures Held(n, pc)
    {
      assert Held(s, pc);
    }
  }

  lemma AddForTranslationEffect(c: Cache, pc: nat, threshold: nat)
    requires CacheInv(c)
    ensures var r := AddAndLockForTranslation(c, pc, threshold);
            && r.Ok? && CacheInv(r.value.cache) && SameElsewhere(c, r.value.cache, pc)
            && (r.value.ptr.Some? ==>
                  && r.value.ptr.value.pc == pc && Live(r.value.cache, r.value.ptr.value)
                  && r.value.cache.entries[pc].kind == UnderProcessing
                  && Slot(r.value.cache, pc) == Translating
                  && !Unfinished(c, pc))
            && (r.value.ptr.None? ==>
                  || r.value.cache == c
                  || (!Unfinished(c, pc) && !Unfinished(r.value.cache, pc) && !Slot(r.value.cache, pc).Code?))
  {
    var added := if pc in c.entries then c else Insert(c, pc, NotTranslated, Interpreted);
    if pc !in c.entries {
      InsertEffect(c, pc, NotTranslated, Interpreted);
    }
    assert EntryOk(added, pc);
    assert pc in c.entries ==> EntryOk(c, pc);
    if Slot(added, pc) == NotTranslated {
      if added.entries[pc].counter < threshold {
        CountEffect(added, pc);
      } else {
        LockEffect(added, pc);
      }
    }
    SameElsewhereJoins(c, added, AddAndLockForTranslation(c, pc, threshold).value.cache, pc);
  }

  lemma CountEffect(c: Cache, pc: nat)
    requires CacheInv(c) && pc in c.entries && Slot(c, pc) == NotTranslated
    ensures var e := c.entries[pc];
            var d := c.(entries := c.entries[pc := e.(counter := e.counter + 1)]);
            CacheInv(d) && SameElsewhere(c, d, pc)
  {
    var d := c.(entries := c.entries[pc := c.entries[pc].(counter := c.entries[pc].counter + 1)]);
    forall q | q in d.entries
      ensures EntryOk(d, q)
    {
      assert EntryOk(c, q);
    }
  }

  lemma SameElsewhereJoins(c: Cache, d: Cache, e: Cache, pc: nat)
    requires SameElsewhere(c, d, pc) && SameElsewhere(d, e, pc)
    ensures SameElsewhere(c, e, pc)
  {
    forall q | q != pc
      ensures SameAt(c, e, q)
    {
      assert SameAt(c, d, q) && SameAt(d, e, q);
    }
  }

  lemma TranslationLockKeepsInv(s: Sys, pc: nat, threshold: nat)
    requires Inv(s)
    ensures var r := Step(s, LockForTranslation(pc, threshold)); r.Ok? && Inv(r.value)
  {
    AddForTranslationEffect(s.cache, pc, threshold);
    var r := AddAndLockForTranslation(s.cache, pc, threshold).value;
    if r == LockReply(s.cache, None) {
      RefusalKeepsInv(s);
    } else {
      GrantKeepsInv(s, r, false, pc);
    }
  }

  lemma GearUpLockKeepsInv(s: Sys, pc: nat)
    requires Inv(s)
    ensures var r := Step(s, LockForGearUp(pc)); r.Ok? && Inv(r.value)
  {
    if pc in s.cache.entries && s.cache.entries[pc].kind == LiteTranslated {
      LockEffect(s.cache, pc);
      GrantKeepsInv(s, LockForTranslationUnsafe(s.cache, pc).value, false, pc);
    } else {
      RefusalKeepsInv(s);
    }
  }

  lemma WrappingLockKeepsInv(s: Sys, pc: nat)
    requires Inv(s)
    ensures var r := Step(s, LockForWrapping(pc)); r.Ok? && Inv(r.value)
  {
    if pc in s.cache.entries {
      RefusalKeepsInv(s);
    } else {
      InsertEffect(s.cache, pc, Wrapping, UnderProcessing);
      GrantKeepsInv(s, AddAndLockForWrapping(s.cache, pc), true, pc);
    }
  }

  lemma TranslatedEffect(c: Cache, p: EntryPtr, guestSize: nat, kind: Kind, code: nat, hostSize: nat)
    requires CacheInv(c) && Live(c, p) && Slot(c, p.pc) == Translating
    requires 0 < guestSize && kind !in {UnderProcessing, GuestWrapped, HostWrapped}
    ensures var r := SetTranslatedAndUnlock(c, p, guestSize, kind, code, hostSize);
            && r.Ok? && CacheInv(r.value) && SameElsewhere(c, r.value, p.pc)
            && IsProduct(r.value, p.pc, Product(0, guestSize, kind, code, hostSize))
  {
    assert EntryOk(c, p.pc);
    var d := SetTranslatedAndUnlock(c, p, guestSize, kind, code, hostSize).value;
    forall q | q in d.entries
      ensures EntryOk(d, q)
    {
      assert EntryOk(c, q);
    }
  }

  lemma WrappedEffect(c: Cache, p: EntryPtr, isHostFunc: bool, code: nat, hostSize: nat)
    requires CacheInv(c) && Live(c, p) && Slot(c, p.pc) == Wrapping
    ensures var r := SetWrappedAndUnlock(c, p, isHostFunc, code, hostSize);
            && r.Ok? && CacheInv(r.value) && SameElsewhere(c, r.value, p.pc)
            && IsProduct(r.value, p.pc, Product(0, 1, if isHostFunc then HostWrapped else GuestWrapped, code, hostSize))
  {
    assert EntryOk(c, p.pc);
    var d := SetWrappedAndUnlock(c, p, isHostFunc, code, hostSize).value;
    forall q | q in d.entries
      ensures EntryOk(d, q)
    {
      assert EntryOk(c, q);
    }
  }

  lemma ReturnKeepsInv(s: Sys, t: Token, d: Cache, m: Product)
    requires Inv(s) && t in s.tokens && CacheInv(d) && SameElsewhere(s.cache, d, t.ptr.pc)
    requires !Unfinished(d, t.ptr.pc)
    requires Slot(d, t.ptr.pc).Code? ==>
               && Slot(s.cache, t.ptr.pc) != Invalidating
               && IsProduct(d, t.ptr.pc, m) && m.since == t.since
               && (t.wrapping ==> m.guestSize == 1)
    ensures Inv(Return(s, t, d, m))
  {
    var n := Return(s, t, d, m);
    var pc := t.ptr.pc;
    assert TokenOk(s, t) && Fresh(s, t);
    assert Slot(d, pc).Code? ==> forall i | 0 <= i < |s.invals| :: !OvertakenBy(t, s.invals[i]);
    forall u | u in n.tokens
      ensures TokenOk(n, u) && Fresh(n, u)
    {
      assert TokenOk(s, u) && Fresh(s, u);
      assert SameAt(s.cache, d, u.ptr.pc);
    }
    forall q
      ensures NotStale(n, q)
    {
      assert NotStale(s, q);
      assert q != pc ==> SameAt(s.cache, d, q);
    }
    forall q | Unfinished(n.cache, q)
      ensures Held(n, q)
    {
      assert SameAt(s.cache, d, q) && Held(s, q);
      var u :| u in s.tokens && u.ptr.pc == q;
      assert u in n.tokens;
    }
  }

  lemma PublishKeepsInv(s: Sys, op: Op)
    requires Inv(s) && Allowed(s, op) && op.Publish?
    ensures Step(s, op).Ok? && Inv(Step(s, op).value)
  {
    var t := op.token;
    assert TokenOk(s, t);
    if Slot(s.cache, t.ptr.pc) == Invalidating {
      EraseEffect(s.cache, t.ptr.pc);
      ReturnKeepsInv(s, t, Erase(s.cache, t.ptr.pc), ProductOf(op));
    } else {
      TranslatedEffect(s.cache, t.ptr, op.guestSize, op.kind, op.code, op.hostSize);
      var d := SetTranslatedAndUnlock(s.cache, t.ptr, op.guestSize, op.kind, op.code, op.hostSize).value;
      ReturnKeepsInv(s, t, d, ProductOf(op));
    }
  }

  lemma PublishWrapperKeepsInv(s: Sys, op: Op)
    requires Inv(s) && Allowed(s, op) && op.PublishWrapper?
    ensures Step(s, op).Ok? && Inv(Step(s, op).value)
  {
    var t := op.token;
    assert TokenOk(s, t);
    if Slot(s.cache, t.ptr.pc) == Invalidating {
      EraseEffect(s.cache, t.ptr.pc);
      ReturnKeepsInv(s, t, Erase(s.cache, t.ptr.pc), ProductOf(op));
    } else {
      WrappedEffect(s.cache, t.ptr, op.isHostFunc, op.code, op.hostSize);
      var d := SetWrappedAndUnlock(s.cache, t.ptr, op.isHostFunc, op.code, op.hostSize).value;
      ReturnKeepsInv(s, t, d, ProductOf(op));
    }
  }

  // Invalidation: what it does to each pc.

  /** The entry of pc once translations in progress are abandoned. */
  function Abandoned(c: Cache, pc: nat): Entry
    requires pc in c.entries
  {
    if Slot(c, pc) == Translating then c.entries[pc].(hostSize := 0) else c.entries[pc]
  }

  lemma AbandonEffect(c: Cache)
    requires CacheInv(c)
    ensures CacheInv(InvalidateTranslating(c))
    ensures InvalidateTranslating(c).entries.Keys == c.entries.Keys
    ensures forall pc :: Slot(InvalidateTranslating(c), pc) ==
                         if Slot(c, pc) == Translating then Invalidating else Slot(c, pc)
    ensures forall pc | pc in c.entries ::
              InvalidateTranslating(c).entries[pc] == Abandoned(c, pc)
  {
    var d := InvalidateTranslating(c);
    forall pc
      ensures Slot(d, pc) == if Slot(c, pc) == Translating then Invalidating else Slot(c, pc)
      ensures pc in c.entries ==> d.entries[pc] == Abandoned(c, pc)
    {
      assert pc in c.entries ==> EntryOk(c, pc);
    }
    forall q | q in d.entries
      ensures EntryOk(d, q)
    {
      assert EntryOk(c, q);
    }
  }

  /** Per pc: untouched outside the range, and inside it erased unless a producer holds it. */
  ghost predicate Invalidated(c: Cache, d: Cache, pc: nat, start: nat, end: nat) {
    if !InRange(c, pc, start, end) then
      && Slot(d, pc) == (if Slot(c, pc) == Translating then Invalidating else Slot(c, pc))
      && (pc in d.entries <==> pc in c.entries)
      && (pc in c.entries ==> d.entries[pc] == Abandoned(c, pc))
    else if Locked(Slot(c, pc)) then
      && Slot(d, pc) == Invalidating
      && pc in d.entries
      && d.entries[pc] == Abandoned(c, pc)
    else
      Slot(d, pc) == NotTranslated && pc !in d.entries
  }

  lemma InvalidateEffect(c: Cache, start: nat, end: nat)
    requires CacheInv(c)
    ensures var d := InvalidateGuestRange(c, start, end).cache;
            CacheInv(d) && forall pc :: Invalidated(c, d, pc, start, end)
  {
    AbandonEffect(c);
    var c1 := InvalidateTranslating(c);
    var d := InvalidateAllInRange(c1, start, end);
    forall pc
      ensures Invalidated(c, d, pc, start, end)
    {
      assert pc in c.entries ==> EntryOk(c, pc) && EntryOk(c1, pc);
    }
    forall q | q in d.entries
      ensures EntryOk(d, q)
    {
      assert EntryOk(c1, q) && Invalidated(c, d, q, start, end);
    }
  }

  lemma InvalidateKeepsTokens(s: Sys, start: nat, end: nat, t: Token)
    requires Inv(s) && t in s.tokens
    ensures var n := Step(s, Invalidate(start, end)).value; TokenOk(n, t) && Fresh(n, t)
  {
    InvalidateEffect(s.cache, start, end);
    var n := Step(s, Invalidate(start, end)).value;
    var last := |s.invals|;
    assert forall i | 0 <= i < last :: n.invals[i] == s.invals[i];
    assert TokenOk(s, t) && Fresh(s, t);
    assert Invalidated(s.cache, n.cache, t.ptr.pc, start, end);
    assert EntryOk(s.cache, t.ptr.pc);
    if Slot(s.cache, t.ptr.pc) == Invalidating {
      var i :| 0 <= i < last && OvertakenBy(t, s.invals[i]);
      assert OvertakenBy(t, n.invals[i]);
    } else {
      assert OvertakenBy(t, n.invals[last]) <==> Slot(n.cache, t.ptr.pc) == Invalidating;
      assert forall i | 0 <= i < last :: !OvertakenBy(t, n.invals[i]);
    }
  }

  lemma InvalidateKeepsInv(s: Sys, start: nat, end: nat)
    requires Inv(s)
    ensures var r := Step(s, Invalidate(start, end)); r.Ok? && Inv(r.value)
  {
    InvalidateEffect(s.cache, start, end);
    var n := Step(s, Invalidate(start, end)).value;
    forall t | t in n.tokens
      ensures TokenOk(n, t) && Fresh(n, t)
    {
      InvalidateKeepsTokens(s, start, end, t);
    }
    forall pc
      ensures NotStale(n, pc)
    {
      assert NotStale(s, pc) && Invalidated(s.cache, n.cache, pc, start, end);
    }
    forall pc | Unfinished(n.cache, pc)
      ensures Held(n, pc)
    {
      assert Invalidated(s.cache, n.cache, pc, start, end);
      assert Held(s, pc);
    }
  }

  // What the reply of InvalidateGuestRange tells its caller.

  /** Some entry in the range has published code or is being wrapped. */
  ghost predicate RunnableInRange(c: Cache, start: nat, end: nat) {
    exists pc | pc in c.entries :: InRange(c, pc, start, end) && (Slot(c, pc).Code? || Slot(c, pc) == Wrapping)
  }

  /** Some entry in the range only counts interpretations so far. */
  ghost predicate CountedInRange(c: Cache, start: nat, end: nat) {
    exists pc | pc in c.entries :: InRange(c, pc, start, end) && Slot(c, pc) == NotTranslated
  }

  /**
   The reply is exact about slots: it is true when the range holds a runnable entry or one that only
   counts interpretations. So a false reply means that no slot in the range held published code.
   */
  lemma InvalidateReplyExact(c: Cache, start: nat, end: nat)
    requires CacheInv(c)
    ensures InvalidateGuestRange(c, start, end).invalidatedExecutable <==>
            RunnableInRange(c, start, end) || CountedInRange(c, start, end)
  {
    AbandonEffect(c);
    var c1 := InvalidateTranslating(c);
    forall pc | pc in c.entries
      ensures InRange(c1, pc, start, end) == InRange(c, pc, start, end)
      ensures Slot(c1, pc) != Invalidating <==>
              Slot(c, pc).Code? || Slot(c, pc) == Wrapping || Slot(c, pc) == NotTranslated
    {
      assert EntryOk(c, pc);
    }
  }

  /** The comment in the header: true iff an already-translated or being-wrapped entry was invalidated. */
  ghost predicate ReplyAsDocumented(c: Cache, start: nat, end: nat) {
    InvalidateGuestRange(c, start, end).invalidatedExecutable <==> RunnableInRange(c, start, end)
  }

  /** The comment holds exactly when counted entries do not stand alone in the range. */
  lemma ReplyAsDocumentedExactly(c: Cache, start: nat, end: nat)
    requires CacheInv(c)
    ensures ReplyAsDocumented(c, start, end) <==>
            (CountedInRange(c, start, end) ==> RunnableInRange(c, start, end))
  {
    InvalidateReplyExact(c, start, end);
  }

  /** One interpretation below the threshold is enough to make the reply differ from the comment. */
  lemma ReplyNotAsDocumented(pc: nat)
    ensures var c := AddAndLockForTranslation(INITIAL, pc, 1).value.cache;
            CacheInv(c) && !ReplyAsDocumented(c, pc, pc + 1)
  {
    AddForTranslationEffect(INITIAL, pc, 1);
    var c := AddAndLockForTranslation(INITIAL, pc, 1).value.cache;
    assert pc in c.entries && InRange(c, pc, pc, pc + 1) && Slot(c, pc) == NotTranslated;
    ReplyAsDocumentedExactly(c, pc, pc + 1);
  }

  // Fork.

  /** In the child nothing is locked, and finished entries and their slots are as before. */
  ghost predicate Forked(c: Cache, d: Cache, pc: nat) {
    && (Unfinished(c, pc) ==> pc !in d.entries && Slot(d, pc) == NotTranslated)
    && (!Unfinished(c, pc) ==> SameAt(c, d, pc))
  }

  lemma ForkEffect(c: Cache)
    requires CacheInv(c)
    ensures var d := FinishForkInChild(c);
            CacheInv(d) && d.translating == {} && forall pc :: Forked(c, d, pc)
  {
    var d := FinishForkInChild(c);
    forall q | q in d.entries
      ensures EntryOk(d, q)
    {
      assert EntryOk(c, q);
    }
  }

  lemma ForkKeepsInv(s: Sys)
    requires Inv(s)
    ensures var r := Step(s, ForkChild); r.Ok? && Inv(r.value)
  {
    ForkEffect(s.cache);
    var n := Step(s, ForkChild).value;
    forall pc
      ensures NotStale(n, pc) && !Unfinished(n.cache, pc)
    {
      assert NotStale(s, pc) && Forked(s.cache, n.cache, pc);
    }
  }

  /** One step of any thread fails no CHECK and keeps the invariant. */
  lemma StepKeepsInv(s: Sys, op: Op)
    requires Inv(s) && Allowed(s, op)
    ensures Step(s, op).Ok? && Inv(Step(s, op).value)
  {
    match op
    case LockForTranslation(pc, threshold) => TranslationLockKeepsInv(s, pc, threshold);
    case LockForGearUp(pc) => GearUpLockKeepsInv(s, pc);
    case Publish(_, _, _, _, _) => PublishKeepsInv(s, op);
    case LockForWrapping(pc) => WrappingLockKeepsInv(s, pc);
    case PublishWrapper(_, _, _, _) => PublishWrapperKeepsInv(s, op);
    case Invalidate(start, end) => InvalidateKeepsInv(s, start, end);
    case ForkChild => ForkKeepsInv(s);
  }

  // Whole runs.

  /** The steps of a run in order; each op is allowed where it happens. */
  ghost predicate LegalRun(s: Sys, ops: seq<Op>)
    decreases |ops|
  {
    ops == [] || (Allowed(s, ops[0]) && (Step(s, ops[0]).Ok? ==> LegalRun(Step(s, ops[0]).value, ops[1..])))
  }

  function Run(s: Sys, ops: seq<Op>): Outcome<Sys>
    decreases |ops|
  {
    if ops == [] then Ok(s)
    else match Step(s, ops[0])
         case CheckFailed => CheckFailed
         case Ok(n) => Run(n, ops[1..])
  }

  lemma {:induction false} RunKeepsInv(s: Sys, ops: seq<Op>)
    requires Inv(s) && LegalRun(s, ops)
    ensures Run(s, ops).Ok? && Inv(Run(s, ops).value)
    decreases |ops|
  {
    if ops != [] {
      StepKeepsInv(s, ops[0]);
      RunKeepsInv(Step(s, ops[0]).value, ops[1..]);
    }
  }

  /**
   A producer's result goes live, with the size, kind, code and host size it was given, exactly when no
   invalidation has overtaken its lock; otherwise the pc is back to having no entry and an untranslated slot.
   */
  lemma PublishedUnlessOvertaken(s: Sys, op: Op)
    requires Inv(s) && Allowed(s, op) && (op.Publish? || op.PublishWrapper?)
    ensures Step(s, op).Ok?
    ensures var n, pc := Step(s, op).value, op.token.ptr.pc;
            if exists i | 0 <= i < |s.invals| :: OvertakenBy(op.token, s.invals[i])
            then Slot(n.cache, pc) == NotTranslated && pc !in n.cache.entries
            else IsProduct(n.cache, pc, ProductOf(op)) && pc in n.made && n.made[pc] == ProductOf(op)
  {
    assert TokenOk(s, op.token) && Fresh(s, op.token);
    assert EntryOk(s.cache, op.token.ptr.pc);
  }

  /** The k-th interpretation of a pc by a caller with the given threshold. */
  function Interpret(c: Cache, pc: nat, threshold: nat, k: nat): Outcome<LockReply> {
    if k == 0 then Ok(LockReply(c, None))
    else match Interpret(c, pc, threshold, k - 1)
         case CheckFailed => CheckFailed
         case Ok(r) => AddAndLockForTranslation(r.cache, pc, threshold)
  }

  /** The entry only counts interpretations, and stands for one byte of guest code. */
  predicate Counted(c: Cache, pc: nat, k: nat) {
    pc in c.entries && c.entries[pc] == Entry(c.entries[pc].id, 0, 1, Interpreted, k)
  }

  /** A new pc is refused exactly `threshold` times and locked the next time. */
  lemma {:induction false} LockedAfterThreshold(c: Cache, pc: nat, threshold: nat, k: nat)
    requires CacheInv(c) && pc !in c.entries && k <= threshold
    ensures var r := Interpret(c, pc, threshold, k);
            && r.Ok? && r.value.ptr == None && CacheInv(r.value.cache)
            && (0 < k ==> Counted(r.value.cache, pc, k))
            && (k == 0 ==> r.value.cache == c)
            && Slot(r.value.cache, pc) == NotTranslated
            && (k == threshold ==> AddAndLockForTranslation(r.value.cache, pc, threshold).value.ptr.Some?)
  {
    if 0 < k {
      LockedAfterThreshold(c, pc, threshold, k - 1);
      AddForTranslationEffect(Interpret(c, pc, threshold, k - 1).value.cache, pc, threshold);
    }
    var d := Interpret(c, pc, threshold, k).value.cache;
    AddForTranslationEffect(d, pc, threshold);
  }

  /** The lock an operation hands out, if any. */
  predicate Granted(s: Sys, n: Sys, pc: nat, wrapping: bool) {
    && pc in n.cache.entries
    && n.tokens == s.tokens + {Token(PtrTo(n.cache, pc), wrapping, s.clock)}
    && Token(PtrTo(n.cache, pc), wrapping, s.clock) !in s.tokens
    && Slot(n.cache, pc) == if wrapping then Wrapping else Translating
  }

  /**
   To translate, a pc without code that has been interpreted often enough; to gear up, one with published code of
   the lite kind; to wrap, one without an entry.
   */
  predicate MayLock(s: Sys, op: Op) {
    match op
    case LockForTranslation(pc, threshold) =>
      && Slot(s.cache, pc) == NotTranslated
      && threshold <= if pc in s.cache.entries then s.cache.entries[pc].counter else 0
    case LockForGearUp(pc) => Slot(s.cache, pc).Code? && pc in s.made && s.made[pc].kind == LiteTranslated
    case LockForWrapping(pc) => pc !in s.cache.entries
    case _ => false
  }

  /** Exactly these requests are granted a lock; otherwise no lock changes hands. */
  lemma LockGrantedExactly(s: Sys, op: Op)
    requires Inv(s) && (op.LockForTranslation? || op.LockForGearUp? || op.LockForWrapping?)
    ensures Step(s, op).Ok?
    ensures var n := Step(s, op).value;
            if MayLock(s, op) then Granted(s, n, op.pc, op.LockForWrapping?) else n.tokens == s.tokens
  {
    StepKeepsInv(s, op);
    assert NotStale(s, op.pc);
    assert op.pc in s.cache.entries ==> EntryOk(s.cache, op.pc);
    forall t | t in s.tokens ensures t.since < s.clock {
      assert TokenOk(s, t);
    }
  }

  lemma StartInv()
    ensures Inv(START)
  {
  }

  /**
   Over every interleaving of lock, publish, wrap, invalidate and fork from an empty cache: no CHECK
   fails, no published code is stale, and locks are exclusive, live and exactly the entries under
   processing.
   */
  lemma CacheSafety(ops: seq<Op>)
    requires LegalRun(START, ops)
    ensures var r := Run(START, ops); r.Ok? && NoStaleCode(r.value) && LocksExact(r.value)
  {
    StartInv();
    RunKeepsInv(START, ops);
  }
}
