/**
 The translation cache as a value: per-pc host code slots, guest code entries, the set of entries
 being translated and the size of the largest entry. Every method that takes the cache mutex is one
 function from state to state. `CheckFailed` stands for a failed CHECK or a dangling entry pointer.
 */
module TranslationCacheSpec {

  datatype Option<+T> = None | Some(value: T)

  datatype Outcome<+T> = CheckFailed | Ok(value: T)

  /** What a host code slot holds; `Code` is any address that is not one of the four sentinels. */
  datatype HostCode = NotTranslated | Translating | Wrapping | Invalidating | Code(addr: nat)

  datatype Kind =
    | Interpreted
    | LiteTranslated
    | HeavyOptimized
    | GuestWrapped
    | HostWrapped
    | UnderProcessing
    | SpecialHandler

  /** `id` is the identity of the map node: a new node for the same pc gets a new id. */
  datatype Entry = Entry(id: nat, hostSize: nat, guestSize: nat, kind: Kind, counter: nat)

  /** A `GuestCodeEntry*`. */
  datatype EntryPtr = EntryPtr(pc: nat, id: nat)

  datatype Cache = Cache(
    slots: map<nat, HostCode>,
    entries: map<nat, Entry>,
    translating: set<EntryPtr>,
    maxGuestSize: nat,
    nextId: nat)

  datatype LockReply = LockReply(cache: Cache, ptr: Option<EntryPtr>)

  datatype InvalidateReply = InvalidateReply(cache: Cache, invalidatedExecutable: bool)

  const INITIAL: Cache := Cache(map[], map[], {}, 1, 0)

  /** The lock-free lookup; slots start out as NotTranslated. */
  function Slot(c: Cache, pc: nat): HostCode {
    if pc in c.slots then c.slots[pc] else NotTranslated
  }

  predicate Live(c: Cache, p: EntryPtr) {
    p.pc in c.entries && c.entries[p.pc].id == p.id
  }

  function PtrTo(c: Cache, pc: nat): EntryPtr
    requires pc in c.entries
  {
    EntryPtr(pc, c.entries[pc].id)
  }

  predicate Overlaps(pc: nat, size: nat, start: nat, end: nat) {
    start < pc + size && pc < end
  }

  /** AddUnsafe on a pc that has no entry yet. */
  function Insert(c: Cache, pc: nat, code: HostCode, kind: Kind): Cache {
    c.(slots := c.slots[pc := code],
       entries := c.entries[pc := Entry(c.nextId, 0, 1, kind, 0)],
       nextId := c.nextId + 1)
  }

  function Erase(c: Cache, pc: nat): Cache {
    c.(slots := c.slots[pc := NotTranslated], entries := c.entries - {pc})
  }

  function LockForTranslationUnsafe(c: Cache, pc: nat): Outcome<LockReply>
    requires pc in c.entries
  {
    var p := PtrTo(c, pc);
    if p in c.translating then CheckFailed
    else
      Ok(LockReply(
           c.(slots := c.slots[pc := Translating],
              entries := c.entries[pc := c.entries[pc].(kind := UnderProcessing)],
              translating := c.translating + {p}),
           Some(p)))
  }

  function AddAndLockForTranslation(c: Cache, pc: nat, threshold: nat): Outcome<LockReply> {
    var added := if pc in c.entries then c else Insert(c, pc, NotTranslated, Interpreted);
    var e := added.entries[pc];
    if Slot(added, pc) != NotTranslated then Ok(LockReply(added, None))
    else if e.counter < threshold then
      Ok(LockReply(added.(entries := added.entries[pc := e.(counter := e.counter + 1)]), None))
    else LockForTranslationUnsafe(added, pc)
  }

  function LockForGearUpTranslation(c: Cache, pc: nat): Outcome<LockReply> {
    if pc !in c.entries || c.entries[pc].kind != LiteTranslated then Ok(LockReply(c, None))
    else LockForTranslationUnsafe(c, pc)
  }

  function AddAndLockForWrapping(c: Cache, pc: nat): LockReply {
    if pc in c.entries then LockReply(c, None)
    else
      var added := Insert(c, pc, Wrapping, UnderProcessing);
      LockReply(added, Some(PtrTo(added, pc)))
  }

  function SetTranslatedAndUnlock(c: Cache, p: EntryPtr, guestSize: nat, kind: Kind, code: nat, hostSize: nat)
    : Outcome<Cache>
  {
    if kind in {UnderProcessing, GuestWrapped, HostWrapped} || !Live(c, p) then CheckFailed
    else
      var e := c.entries[p.pc];
      if Slot(c, p.pc) == Invalidating then Ok(Erase(c, p.pc))
      else if Slot(c, p.pc) != Translating || e.kind != UnderProcessing || guestSize == 0 || p !in c.translating
      then CheckFailed
      else
        Ok(Cache(
             c.slots[p.pc := Code(code)],
             c.entries[p.pc := e.(hostSize := hostSize, guestSize := guestSize, kind := kind)],
             c.translating - {p},
             if c.maxGuestSize < guestSize then guestSize else c.maxGuestSize,
             c.nextId))
  }

  function SetWrappedAndUnlock(c: Cache, p: EntryPtr, isHostFunc: bool, code: nat, hostSize: nat): Outcome<Cache> {
    if !Live(c, p) then CheckFailed
    else
      var e := c.entries[p.pc];
      if Slot(c, p.pc) == Invalidating then Ok(Erase(c, p.pc))
      else if Slot(c, p.pc) != Wrapping || e.kind != UnderProcessing || e.guestSize != 1 then CheckFailed
      else
        var kind := if isHostFunc then HostWrapped else GuestWrapped;
        Ok(c.(slots := c.slots[p.pc := Code(code)],
              entries := c.entries[p.pc := e.(hostSize := hostSize, kind := kind)]))
  }

  /** InvalidateEntriesBeingTranslatedUnsafe: every translation in progress is abandoned. */
  function InvalidateTranslating(c: Cache): Cache {
    c.(slots := map pc | pc in c.slots ::
                  if pc in c.entries && PtrTo(c, pc) in c.translating then Invalidating else c.slots[pc],
       entries := map pc | pc in c.entries ::
                    if PtrTo(c, pc) in c.translating then c.entries[pc].(hostSize := 0) else c.entries[pc],
       translating := {})
  }

  predicate InRange(c: Cache, pc: nat, start: nat, end: nat) {
    pc in c.entries && Overlaps(pc, c.entries[pc].guestSize, start, end)
  }

  /** An entry the range scan drops: in the range and not held by a producer. */
  predicate Dropped(c: Cache, pc: nat, start: nat, end: nat) {
    InRange(c, pc, start, end) && Slot(c, pc) != Invalidating && Slot(c, pc) != Wrapping
  }

  /** The effect on every entry in the range, stated with no scan order and no window. */
  function InvalidateAllInRange(c: Cache, start: nat, end: nat): Cache {
    c.(slots := map pc | pc in c.slots ::
                  if Dropped(c, pc, start, end) then NotTranslated
                  else if InRange(c, pc, start, end) then Invalidating
                  else c.slots[pc],
       entries := map pc | pc in c.entries && !Dropped(c, pc, start, end) :: c.entries[pc])
  }

  function InvalidateGuestRange(c: Cache, start: nat, end: nat): InvalidateReply {
    var c1 := InvalidateTranslating(c);
    InvalidateReply(
      InvalidateAllInRange(c1, start, end),
      exists pc | pc in c1.entries :: InRange(c1, pc, start, end) && Slot(c1, pc) != Invalidating)
  }

  predicate Unfinished(c: Cache, pc: nat) {
    pc in c.entries && c.entries[pc].kind == UnderProcessing
  }

  /** FinishFork in the child: the producers no longer exist. */
  function FinishForkInChild(c: Cache): Cache {
    c.(slots := map pc | pc in c.slots :: if Unfinished(c, pc) then NotTranslated else c.slots[pc],
       entries := map pc | pc in c.entries && !Unfinished(c, pc) :: c.entries[pc],
       translating := {})
  }

  // The state invariant of the cache itself.

  predicate Locked(h: HostCode) {
    h in {Translating, Wrapping, Invalidating}
  }

  ghost predicate EntryOk(c: Cache, pc: nat)
    requires pc in c.entries
  {
    var e, h := c.entries[pc], Slot(c, pc);
    && 1 <= e.guestSize <= c.maxGuestSize
    && e.id < c.nextId
    && pc in c.slots
    && (e.kind == UnderProcessing <==> Locked(h))
    && (e.kind != UnderProcessing ==> h.Code? || (h == NotTranslated && e.kind == Interpreted))
    && (h == Wrapping ==> e.guestSize == 1)
    && (h == Translating <==> PtrTo(c, pc) in c.translating)
  }

  ghost predicate CacheInv(c: Cache) {
    && 1 <= c.maxGuestSize
    && (forall pc | pc in c.entries :: EntryOk(c, pc))
    && (forall pc | pc in c.slots && pc !in c.entries :: c.slots[pc] == NotTranslated)
    && (forall p | p in c.translating :: Live(c, p))
  }
}
