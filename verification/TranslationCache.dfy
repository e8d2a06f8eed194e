/** The translation cache as the program has it: fields updated in place, scans over ordered maps. */
module TranslationCacheImpl {
  import Ordered
  import opened Spec = TranslationCacheSpec
  import Safety = TranslationCacheSafety

  /** InvalidateAllInRange restricted to the pcs a scan has gone past. */
  ghost function InvalidateVisited(c: Cache, start: nat, end: nat, visited: set<nat>): Cache {
    c.(slots := map pc | pc in c.slots ::
                  if pc in visited && Dropped(c, pc, start, end) then NotTranslated
                  else if pc in visited && InRange(c, pc, start, end) then Invalidating
                  else c.slots[pc],
       entries := map pc | pc in c.entries && !(pc in visited && Dropped(c, pc, start, end)) :: c.entries[pc])
  }

  ghost function ForkVisited(c: Cache, visited: set<nat>): Cache {
    c.(slots := map pc | pc in c.slots ::
                  if pc in visited && Unfinished(c, pc) then NotTranslated else c.slots[pc],
       entries := map pc | pc in c.entries && !(pc in visited && Unfinished(c, pc)) :: c.entries[pc],
       translating := {})
  }

  lemma VisitedIsAll(c: Cache, start: nat, end: nat, visited: set<nat>)
    requires forall pc | pc in c.entries && pc !in visited :: !InRange(c, pc, start, end)
    ensures InvalidateVisited(c, start, end, visited) == InvalidateAllInRange(c, start, end)
  {
    var a, b := InvalidateVisited(c, start, end, visited), InvalidateAllInRange(c, start, end);
    assert a.slots == b.slots;
    assert a.entries == b.entries;
  }

  lemma VisitOne(c: Cache, start: nat, end: nat, visited: set<nat>, pc: nat)
    requires pc in c.entries && pc in c.slots && pc !in visited
    ensures var d := InvalidateVisited(c, start, end, visited);
            && pc in d.entries && d.entries[pc] == c.entries[pc] && Slot(d, pc) == Slot(c, pc)
            && InvalidateVisited(c, start, end, visited + {pc}) ==
               if !InRange(c, pc, start, end) || Slot(c, pc) == Invalidating then d
               else if Slot(c, pc) == Wrapping then d.(slots := d.slots[pc := Invalidating])
               else Erase(d, pc)
  {
    var d, n := InvalidateVisited(c, start, end, visited), InvalidateVisited(c, start, end, visited + {pc});
    if !InRange(c, pc, start, end) || Slot(c, pc) == Invalidating {
      assert n.slots == d.slots && n.entries == d.entries;
    } else if Slot(c, pc) == Wrapping {
      assert n.slots == d.slots[pc := Invalidating];
      assert n.entries == d.entries;
    } else {
      assert n.slots == d.slots[pc := NotTranslated];
      assert n.entries == d.entries - {pc};
    }
  }

  lemma NoneVisited(c: Cache, start: nat, end: nat, visited: set<nat>)
    requires forall pc | pc in visited :: !InRange(c, pc, start, end)
    ensures InvalidateVisited(c, start, end, visited) == c
  {
    var d := InvalidateVisited(c, start, end, visited);
    assert d.slots == c.slots && d.entries == c.entries;
  }

  lemma ForkVisitOne(c: Cache, visited: set<nat>, pc: nat)
    requires pc in c.entries && pc in c.slots && pc !in visited
    ensures var d := ForkVisited(c, visited);
            && pc in d.entries && d.entries[pc] == c.entries[pc]
            && ForkVisited(c, visited + {pc}) == if Unfinished(c, pc) then Erase(d, pc) else d
  {
    var d, n := ForkVisited(c, visited), ForkVisited(c, visited + {pc});
    if Unfinished(c, pc) {
      assert n.slots == d.slots[pc := NotTranslated];
      assert n.entries == d.entries - {pc};
    } else {
      assert n.slots == d.slots && n.entries == d.entries;
    }
  }

  lemma ForkVisitedAll(c: Cache)
    ensures ForkVisited(c, c.entries.Keys) == FinishForkInChild(c)
  {
    var a, b := ForkVisited(c, c.entries.Keys), FinishForkInChild(c);
    assert a.slots == b.slots && a.entries == b.entries;
  }

  /** All the window of the scan relies on. */
  ghost predicate SizesOk(c: Cache) {
    forall pc | pc in c.entries :: pc in c.slots && c.entries[pc].guestSize <= c.maxGuestSize
  }

  /** InvalidateTranslating restricted to the pointers a loop has gone past. */
  ghost function AbandonVisited(c: Cache, visited: set<EntryPtr>): Cache {
    c.(slots := map pc | pc in c.slots ::
                  if pc in c.entries && PtrTo(c, pc) in visited then Invalidating else c.slots[pc],
       entries := map pc | pc in c.entries ::
                    if PtrTo(c, pc) in visited then c.entries[pc].(hostSize := 0) else c.entries[pc])
  }

  lemma AbandonVisitOne(c: Cache, visited: set<EntryPtr>, p: EntryPtr)
    requires Live(c, p) && p.pc in c.slots && p !in visited
    ensures var d := AbandonVisited(c, visited);
            && p.pc in d.entries && d.entries[p.pc] == c.entries[p.pc] && d.slots[p.pc] == c.slots[p.pc]
            && AbandonVisited(c, visited + {p}) ==
               d.(slots := d.slots[p.pc := Invalidating],
                  entries := d.entries[p.pc := d.entries[p.pc].(hostSize := 0)])
  {
    var d, n := AbandonVisited(c, visited), AbandonVisited(c, visited + {p});
    assert n.slots == d.slots[p.pc := Invalidating];
    assert n.entries == d.entries[p.pc := d.entries[p.pc].(hostSize := 0)];
  }

  /** Before the loop nothing is visited, after it everything is. */
  lemma AbandonEnds(c: Cache)
    ensures AbandonVisited(c, {}) == c && AbandonVisited(c, c.translating).(translating := {}) == InvalidateTranslating(c)
  {
    var none, all := AbandonVisited(c, {}), AbandonVisited(c, c.translating);
    assert none.slots == c.slots && none.entries == c.entries;
    assert all.slots == InvalidateTranslating(c).slots && all.entries == InvalidateTranslating(c).entries;
  }

  lemma OneMore(all: set<EntryPtr>, todo: set<EntryPtr>, p: EntryPtr)
    requires p in todo && todo <= all
    ensures all - todo + {p} == all - (todo - {p})
  {
  }

  class TranslationCache {
    var slots: map<nat, HostCode>
    var entries: map<nat, Entry>
    var translating: set<EntryPtr>
    var maxGuestSize: nat
    var nextId: nat

    function State(): Cache
      reads this
    {
      Cache(slots, entries, translating, maxGuestSize, nextId)
    }

    ghost predicate Valid()
      reads this
    {
      CacheInv(State())
    }

    constructor ()
      ensures Valid() && State() == INITIAL
    {
      slots, entries, translating, maxGuestSize, nextId := map[], map[], {}, 1, 0;
    }

    method AddUnsafe(pc: nat, code: HostCode, kind: Kind) returns (added: bool)
      modifies this
      ensures added == (pc !in old(entries))
      ensures State() == if added then Insert(old(State()), pc, code, kind) else old(State())
    {
      added := pc !in entries;
      if added {
        entries := entries[pc := Entry(nextId, 0, 1, kind, 0)];
        nextId := nextId + 1;
        slots := slots[pc := code];
      }
    }

    method LockForTranslationUnsafe(pc: nat) returns (p: EntryPtr)
      requires pc in entries && PtrTo(State(), pc) !in translating
      modifies this
      ensures Spec.LockForTranslationUnsafe(old(State()), pc) == Ok(LockReply(State(), Some(p)))
    {
      p := EntryPtr(pc, entries[pc].id);
      slots := slots[pc := Translating];
      entries := entries[pc := entries[pc].(kind := UnderProcessing)];
      translating := translating + {p};
    }

    method AddAndLockForTranslation(pc: nat, threshold: nat) returns (r: Option<EntryPtr>)
      requires Valid()
      modifies this
      ensures Valid()
      ensures Spec.AddAndLockForTranslation(old(State()), pc, threshold) == Ok(LockReply(State(), r))
    {
      Safety.AddForTranslationEffect(State(), pc, threshold);
      assert pc in entries ==> EntryOk(State(), pc);
      var added := AddUnsafe(pc, NotTranslated, Interpreted);
      if Slot(State(), pc) != NotTranslated {
        return None;
      }
      if entries[pc].counter < threshold {
        entries := entries[pc := entries[pc].(counter := entries[pc].counter + 1)];
        assert Spec.AddAndLockForTranslation(old(State()), pc, threshold) == Ok(LockReply(State(), None));
        return None;
      }
      var p := LockForTranslationUnsafe(pc);
      r := Some(p);
    }

    method LockForGearUpTranslation(pc: nat) returns (r: Option<EntryPtr>)
      requires Valid()
      modifies this
      ensures Valid()
      ensures Spec.LockForGearUpTranslation(old(State()), pc) == Ok(LockReply(State(), r))
    {
      if pc in entries && entries[pc].kind == LiteTranslated {
        Safety.LockEffect(State(), pc);
      }
      if pc !in entries || entries[pc].kind != LiteTranslated {
        return None;
      }
      assert EntryOk(State(), pc);
      var p := LockForTranslationUnsafe(pc);
      r := Some(p);
    }

    method SetTranslatedAndUnlock(p: EntryPtr, guestSize: nat, kind: Kind, code: nat, hostSize: nat)
      requires Valid() && Live(State(), p)
      requires Slot(State(), p.pc) == Translating || Slot(State(), p.pc) == Invalidating
      requires 0 < guestSize && kind !in {UnderProcessing, GuestWrapped, HostWrapped}
      modifies this
      ensures Valid()
      ensures Spec.SetTranslatedAndUnlock(old(State()), p, guestSize, kind, code, hostSize) == Ok(State())
    {
      if Slot(State(), p.pc) == Invalidating {
        Safety.EraseEffect(State(), p.pc);
      } else {
        Safety.TranslatedEffect(State(), p, guestSize, kind, code, hostSize);
      }
      assert EntryOk(State(), p.pc);
      if slots[p.pc] == Invalidating {
        slots := slots[p.pc := NotTranslated];
        entries := entries - {p.pc};
        return;
      }
      assert entries[p.pc].kind == UnderProcessing;
      slots := slots[p.pc := Code(code)];
      entries := entries[p.pc := entries[p.pc].(hostSize := hostSize, guestSize := guestSize, kind := kind)];
      assert p in translating;
      translating := translating - {p};
      if maxGuestSize < guestSize {
        maxGuestSize := guestSize;
      }
    }

    method AddAndLockForWrapping(pc: nat) returns (r: Option<EntryPtr>)
      requires Valid()
      modifies this
      ensures Valid()
      ensures Spec.AddAndLockForWrapping(old(State()), pc) == LockReply(State(), r)
    {
      if pc !in entries {
        Safety.InsertEffect(State(), pc, Wrapping, UnderProcessing);
      }
      var locked := AddUnsafe(pc, Wrapping, UnderProcessing);
      r := if locked then Some(EntryPtr(pc, entries[pc].id)) else None;
    }

    method SetWrappedAndUnlock(p: EntryPtr, isHostFunc: bool, code: nat, hostSize: nat)
      requires Valid() && Live(State(), p)
      requires Slot(State(), p.pc) == Wrapping || Slot(State(), p.pc) == Invalidating
      modifies this
      ensures Valid()
      ensures Spec.SetWrappedAndUnlock(old(State()), p, isHostFunc, code, hostSize) == Ok(State())
    {
      if Slot(State(), p.pc) == Invalidating {
        Safety.EraseEffect(State(), p.pc);
      } else {
        Safety.WrappedEffect(State(), p, isHostFunc, code, hostSize);
      }
      assert EntryOk(State(), p.pc);
      if slots[p.pc] == Invalidating {
        slots := slots[p.pc := NotTranslated];
        entries := entries - {p.pc};
        return;
      }
      assert entries[p.pc].kind == UnderProcessing && entries[p.pc].guestSize == 1;
      slots := slots[p.pc := Code(code)];
      entries := entries[p.pc := entries[p.pc].(hostSize := hostSize,
                                                kind := if isHostFunc then HostWrapped else GuestWrapped)];
    }

    /** One turn of the loop below, with its two CHECKs. */
    method AbandonOne(p: EntryPtr, ghost c: Cache, ghost visited: set<EntryPtr>)
      requires CacheInv(c) && p in c.translating && p !in visited && State() == AbandonVisited(c, visited)
      modifies this`slots, this`entries
      ensures State() == AbandonVisited(c, visited + {p})
    {
      assert Live(c, p) && EntryOk(c, p.pc);
      AbandonVisitOne(c, visited, p);
      assert entries[p.pc].kind == UnderProcessing && slots[p.pc] == Translating;
      slots := slots[p.pc := Invalidating];
      entries := entries[p.pc := entries[p.pc].(hostSize := 0)];
    }

    method InvalidateEntriesBeingTranslatedUnsafe()
      requires Valid()
      modifies this
      ensures State() == InvalidateTranslating(old(State()))
    {
      ghost var c := State();
      var todo := translating;
      AbandonEnds(c);
      assert c.translating - todo == {};
      while todo != {}
        invariant todo <= c.translating
        invariant State() == AbandonVisited(c, c.translating - todo)
      {
        var p :| p in todo;
        AbandonOne(p, c, c.translating - todo);
        OneMore(c.translating, todo, p);
        todo := todo - {p};
      }
      assert c.translating - {} == c.translating;
      translating := {};
    }

    /** The scan starts past every entry too short to reach `start` and stops at the first pc at `end` or above. */
    method InvalidateGuestRange(start: nat, end: nat) returns (invalidatedExecutable: bool)
      requires Valid()
      modifies this
      ensures Valid()
      ensures InvalidateReply(State(), invalidatedExecutable) == Spec.InvalidateGuestRange(old(State()), start, end)
    {
      Safety.InvalidateEffect(State(), start, end);
      InvalidateEntriesBeingTranslatedUnsafe();
      ghost var c := State();
      assert SizesOk(c) by {
        assert forall pc | pc in c.entries :: EntryOk(old(State()), pc);
      }
      invalidatedExecutable := ScanRange(start, end);
    }

    method ScanRange(start: nat, end: nat) returns (invalidatedExecutable: bool)
      requires SizesOk(State())
      modifies this
      ensures State() == InvalidateAllInRange(old(State()), start, end)
      ensures invalidatedExecutable <==>
              exists pc | pc in old(State()).entries ::
                InRange(old(State()), pc, start, end) && Slot(old(State()), pc) != Invalidating
    {
      ghost var c := State();
      var todo := if start <= maxGuestSize then entries.Keys
                  else set pc | pc in entries.Keys && start - maxGuestSize < pc;
      ghost var visited := c.entries.Keys - todo;
      NoneVisited(c, start, end, visited);
      invalidatedExecutable := false;
      while todo != {}
        invariant todo <= c.entries.Keys && visited == c.entries.Keys - todo
        invariant State() == InvalidateVisited(c, start, end, visited)
        invariant invalidatedExecutable <==>
                  exists pc | pc in visited :: InRange(c, pc, start, end) && Slot(c, pc) != Invalidating
      {
        var pc := Ordered.Min(todo);
        VisitOne(c, start, end, visited, pc);
        todo := todo - {pc};
        visited := visited + {pc};
        if pc + entries[pc].guestSize <= start {
          continue;
        }
        if end <= pc {
          break;
        }
        var current := Slot(State(), pc);
        if current == Invalidating {
        } else if current == Wrapping {
          slots := slots[pc := Invalidating];
          invalidatedExecutable := true;
        } else {
          slots := slots[pc := NotTranslated];
          entries := entries - {pc};
          invalidatedExecutable := true;
        }
      }
      VisitedIsAll(c, start, end, visited);
    }

    /** The loop body: an entry somebody was working on is dropped. */
    method FinishOne(pc: nat, ghost c: Cache, ghost visited: set<nat>)
      requires pc in c.entries && pc in c.slots && pc !in visited && State() == ForkVisited(c, visited)
      modifies this
      ensures State() == ForkVisited(c, visited + {pc})
    {
      ForkVisitOne(c, visited, pc);
      if entries[pc].kind == UnderProcessing {
        slots := slots[pc := NotTranslated];
        entries := entries - {pc};
      }
    }

    method FinishForkInChild()
      requires Valid()
      modifies this
      ensures Valid()
      ensures State() == Spec.FinishForkInChild(old(State()))
    {
      Safety.ForkEffect(State());
      ghost var c, visited := State(), {};
      translating := {};
      var todo := entries.Keys;
      assert ForkVisited(c, {}).slots == c.slots && ForkVisited(c, {}).entries == c.entries;
      while todo != {}
        invariant visited + todo == c.entries.Keys && visited !! todo
        invariant State() == ForkVisited(c, visited)
      {
        var pc := Ordered.Min(todo);
        assert EntryOk(c, pc);
        FinishOne(pc, c, visited);
        todo, visited := todo - {pc}, visited + {pc};
      }
      ForkVisitedAll(c);
    }
  }
}
