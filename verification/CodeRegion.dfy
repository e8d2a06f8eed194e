/** A guest code region as the program builds and finalizes it. */
module CodeRegion {
  import Ordered
  import opened CodeRegionSpec

  class GuestCodeRegion {
    var blocks: Blocks
    var branchTargets: set<nat>
    var finalized: bool

    /** Every out-edge is recorded as a branch target. */
    ghost predicate Valid()
      reads this
    {
      EdgesIn(blocks, branchTargets) && (!finalized ==> forall s | s in blocks :: blocks[s].inEdges == [])
    }

    constructor ()
      ensures Valid() && !finalized && blocks == map[] && branchTargets == {}
    {
      blocks, branchTargets, finalized := map[], {}, false;
    }

    method NewBasicBlock(addr: nat, size: nat, outEdges: seq<nat>)
      requires Valid() && !finalized && addr !in blocks
      modifies this
      ensures Valid() && !finalized
      ensures blocks == old(blocks)[addr := Block(size, outEdges, [])]
      ensures branchTargets == old(branchTargets) + set t | t in outEdges
    {
      blocks := blocks[addr := Block(size, outEdges, [])];
      branchTargets := branchTargets + set t | t in outEdges;
    }

    /** False stands for a failed CHECK: some block starts before the one below it ends. */
    method ValidateRegionBeforeFinalize() returns (ok: bool)
      requires Valid() && !finalized
      ensures ok <==> Disjoint(blocks)
    {
      var todo, lastSeenEnd := blocks.Keys, 0;
      ghost var done: set<nat>, last := {}, 0;
      while todo != {}
        invariant todo + done == blocks.Keys
        invariant forall a, b | a in done && b in todo :: a < b
        invariant forall a | a in done :: a + blocks[a].size <= lastSeenEnd
        invariant lastSeenEnd != 0 ==> last in done && last + blocks[last].size == lastSeenEnd
        invariant forall a, b | a in done && b in done && a < b :: a + blocks[a].size <= b
      {
        var start := Ordered.Min(todo);
        if start < lastSeenEnd {
          assert last < start;
          return false;
        }
        todo := todo - {start};
        lastSeenEnd, last, done := start + blocks[start].size, start, done + {start};
      }
      ok := true;
    }

    /** One turn of the loop of SplitBasicBlocks. */
    method SplitAt(target: nat)
      requires Valid() && !finalized && Disjoint(blocks) && target in branchTargets
      modifies this
      ensures Valid() && !finalized && Disjoint(blocks) && branchTargets == old(branchTargets)
      ensures Cuts(old(blocks), blocks) && !Inside(blocks, target) && blocks == CutAt(old(blocks), target)
    {
      CutsSelf(blocks);
      var below := set k | k in blocks.Keys && k <= target;
      assert forall r | r in blocks && r <= target :: r in below;
      if below == {} {
        return;
      }
      var s := Ordered.Max(below);
      FloorDecides(blocks, s, target);
      if target <= s || s + blocks[s].size <= target {
        return;
      }
      assert forall r | StrictlyInside(blocks, r, target) :: r == s;
      SplitFound(s, target);
    }

    method SplitFound(s: nat, target: nat)
      requires Valid() && !finalized && Disjoint(blocks) && target in branchTargets && StrictlyInside(blocks, s, target)
      modifies this
      ensures Valid() && !finalized && branchTargets == old(branchTargets)
      ensures blocks == Split(old(blocks), s, target)
      ensures Disjoint(blocks) && Cuts(old(blocks), blocks) && !Inside(blocks, target)
    {
      SplitKeepsShape(blocks, s, target, branchTargets);
      var size, outEdges := blocks[s].size, blocks[s].outEdges;
      assert branchTargets + (set t | t in outEdges) == branchTargets;
      NewBasicBlock(target, s + size - target, outEdges);
      blocks := blocks[s := blocks[s].(size := target - s, outEdges := [target])];
    }

    method SplitBasicBlocks()
      requires Valid() && !finalized && Disjoint(blocks)
      modifies this
      ensures Valid() && !finalized && Disjoint(blocks) && branchTargets == old(branchTargets)
      ensures Cuts(old(blocks), blocks) && NotSplitBy(blocks, branchTargets)
      ensures blocks == CutAtAll(old(blocks), branchTargets)
    {
      var todo := branchTargets;
      while todo != {}
        invariant Valid() && !finalized && Disjoint(blocks) && branchTargets == old(branchTargets)
        invariant todo <= branchTargets
        invariant Cuts(old(blocks), blocks) && NotSplitBy(blocks, branchTargets - todo)
        invariant CutAtAll(blocks, todo) == CutAtAll(old(blocks), branchTargets)
      {
        var target := Ordered.Min(todo);
        todo := todo - {target};
        ghost var before := blocks;
        SplitAt(target);
        CutsAgain(old(blocks), before, blocks);
      }
    }

    /**
     The worklist search; the visited vector is indexed by offset from the first block. False stands for a failed
     CHECK: an address that is not before the end of the last block.
     */
    method CollectReachableBranchTargets() returns (ok: bool, reachable: set<nat>)
      requires Valid() && Disjoint(blocks) && blocks != map[]
      ensures ok <==> !EmptyEndReached(blocks)
      ensures ok ==> reachable == EdgesOf(blocks, ReachableBlocks(blocks, Ordered.Min(blocks.Keys)))
    {
      var bs := blocks;
      var start, lastBlock := Ordered.Min(bs.Keys), Ordered.Max(bs.Keys);
      var end := lastBlock + bs[lastBlock].size;
      var visited := seq(end - start, _ => false);
      var worklist: seq<nat> := [start];
      reachable := {};
      SearchBegins(bs, start, visited);
      while worklist != []
        invariant |visited| == end - start
        invariant Searching(bs, start, Visited(bs, start, visited), worklist, reachable)
        decreases |bs.Keys - Visited(bs, start, visited)|, |worklist|
      {
        var addr := worklist[0];
        if addr !in bs {
          SearchSkip(bs, start, Visited(bs, start, visited), worklist, reachable);
          worklist := worklist[1..];
          continue;
        }
        WithinRegion(bs, addr);
        if end <= addr {
          return false, reachable;
        }
        VisitedAt(bs, start, visited, addr);
        if visited[addr - start] {
          SearchSkip(bs, start, Visited(bs, start, visited), worklist, reachable);
          worklist := worklist[1..];
          continue;
        }
        SearchVisit(bs, start, Visited(bs, start, visited), worklist, reachable);
        VisitedOneMore(bs, start, visited, addr);
        var out := bs[addr].outEdges;
        worklist := worklist[1..] + out;
        reachable := reachable + set t | t in out;
        visited := visited[addr - start := true];
      }
      SearchDone(bs, start, Visited(bs, start, visited), reachable);
      ok := true;
      assert lastBlock in ReachableBlocks(bs, start) ==> lastBlock in Visited(bs, start, visited);
    }

    method RemoveUnreachableBlocks() returns (ok: bool)
      requires Valid() && !finalized && Disjoint(blocks) && blocks != map[]
      modifies this
      ensures ok <==> !EmptyEndReached(old(blocks))
      ensures ok ==>
                && blocks == Restrict(old(blocks), ReachableBlocks(old(blocks), Ordered.Min(old(blocks).Keys)))
                && branchTargets == EdgesOf(blocks, blocks.Keys)
                && Valid() && !finalized
    {
      ghost var bs := blocks;
      var first := Ordered.Min(blocks.Keys);
      var targets;
      ok, targets := CollectReachableBranchTargets();
      if !ok {
        return;
      }
      var todo := blocks.Keys - {first};
      ghost var keep := bs.Keys;
      while todo != {}
        invariant todo <= keep <= bs.Keys && blocks == Restrict(bs, keep) && !finalized
        invariant forall s | s in bs :: s in keep <==> s in todo || s == first || s in targets
      {
        var s := Ordered.Min(todo);
        todo := todo - {s};
        if s !in targets {
          RestrictLess(bs, keep, s);
          blocks := blocks - {s};
          keep := keep - {s};
        }
      }
      branchTargets := targets;
      KeptAreReachable(bs, first, targets, keep);
    }

    method ResolveInEdges()
      requires Valid() && !finalized
      modifies this
      ensures Converse(blocks, blocks.Keys) && SameFlow(old(blocks), blocks)
      ensures branchTargets == old(branchTargets) && !finalized
    {
      var todo := blocks.Keys;
      ghost var done: set<nat> := {};
      while todo != {}
        invariant todo + done == blocks.Keys && todo !! done
        invariant branchTargets == old(branchTargets) && !finalized
        invariant SameFlow(old(blocks), blocks) && Converse(blocks, done)
      {
        ghost var before := blocks;
        var source := Ordered.Min(todo);
        todo := todo - {source};
        AddInEdges(source, done);
        SameFlowAgain(old(blocks), before, blocks);
        done := done + {source};
      }
      assert done == blocks.Keys;
    }

    /** The inner loop: one in-edge per out-edge of the source that stays in the region. */
    method AddInEdges(source: nat, ghost done: set<nat>)
      requires source in blocks && source !in done && Converse(blocks, done)
      modifies this`blocks
      ensures SameFlow(old(blocks), blocks) && Converse(blocks, done + {source})
    {
      var out := blocks[source].outEdges;
      assert out[..0] == [];
      PartlyIsConverse(blocks, done, source);
      for i := 0 to |out|
        invariant SameFlow(old(blocks), blocks) && PartlyConverse(blocks, done, source, out[..i])
      {
        ghost var before := blocks;
        var target := out[i];
        assert out[..i + 1] == out[..i] + [target];
        AddOne(blocks, done, source, out[..i], target);
        if target in blocks {
          blocks := blocks[target := blocks[target].(inEdges := blocks[target].inEdges + [source])];
        }
        assert SameFlow(before, blocks);
        SameFlowAgain(old(blocks), before, blocks);
      }
      assert out[..|out|] == out == blocks[source].outEdges;
      PartlyIsConverse(blocks, done, source);
    }

    /**
     Finalizes the region. A false result stands for a failed CHECK: in an empty or overlapping region, or in one
     that ends in a reachable block without code. Otherwise control is what it was: from the lowest block the same
     addresses are executed, each with the same successors.
     */
    method ResolveEdges() returns (ok: bool)
      requires Valid() && !finalized
      modifies this
      ensures ok <==> Disjoint(old(blocks)) && old(blocks) != map[] && !EntersEmptyEnd(old(blocks))
      ensures ok ==> finalized && Resolved(old(blocks), blocks, branchTargets)
    {
      ok := ValidateRegionBeforeFinalize();
      if !ok || blocks == map[] {
        return false;
      }
      EmptyEndExactly(blocks, branchTargets);
      SplitBasicBlocks();
      ghost var split, targets := blocks, branchTargets;
      CutsKeepsFirst(old(blocks), split);
      ok := RemoveUnreachableBlocks();
      if !ok {
        return;
      }
      ghost var pruned := blocks;
      ResolveInEdges();
      finalized := true;
      ResolvedFacts(old(blocks), split, targets, pruned, blocks, branchTargets);
    }
  }

  /** What ResolveEdges promises of the blocks it leaves. */
  ghost predicate Resolved(before: Blocks, after: Blocks, targets: set<nat>) {
    before != map[] &&
    var start := Ordered.Min(before.Keys);
    // Execution is preserved.
    && (forall a :: Executes(after, start, a) <==> Executes(before, start, a))
    && (forall a, b | Executes(before, start, a) :: Steps(after, a, b) <==> Steps(before, a, b))
    // Branch targets are the out-edges, and none is strictly inside a block.
    && targets == EdgesOf(after, after.Keys)
    && NotSplitBy(after, targets) && Disjoint(after)
    // Exactly reachable blocks are left, and in-edges mirror out-edges.
    && (forall s | s in after :: Reaches(after, start, s))
    && Converse(after, after.Keys)
  }

  lemma ResolvedFacts(before: Blocks, split: Blocks, targets: set<nat>, pruned: Blocks, after: Blocks, kept: set<nat>)
    requires before != map[] && split != map[] && Ordered.Min(split.Keys) == Ordered.Min(before.Keys)
    requires Cuts(before, split)
    requires Disjoint(split) && EdgesIn(split, targets) && NotSplitBy(split, targets)
    requires pruned == Restrict(split, ReachableBlocks(split, Ordered.Min(split.Keys)))
    requires kept == EdgesOf(pruned, pruned.Keys)
    requires SameFlow(pruned, after) && Converse(after, after.Keys)
    ensures Resolved(before, after, kept)
  {
    var start := Ordered.Min(before.Keys);
    FlowSteps(pruned, after);
    forall a
      ensures Executes(after, start, a) <==> Executes(before, start, a)
    {
      SameStepsSameExecution(before, split, start, a);
      PruneKeepsExecution(split, targets, start, a);
      SameStepsSameExecution(pruned, after, start, a);
    }
    forall a, b | Executes(before, start, a)
      ensures Steps(after, a, b) <==> Steps(before, a, b)
    {
      SameStepsSameExecution(before, split, start, a);
      PruneKeepsSteps(split, targets, start, a, b);
    }
    forall t | t in kept
      ensures !Inside(after, t)
    {
      var s :| s in pruned && t in pruned[s].outEdges;
      assert t in targets && !Inside(split, t);
      forall q
        ensures !StrictlyInside(after, q, t)
      {
        assert !StrictlyInside(split, q, t);
      }
    }
    forall s | s in after
      ensures Reaches(after, start, s)
    {
      var p :| EdgePath(split, p) && p[0] == start && p[|p| - 1] == s;
      PruneKeepsReaches(split, start, p);
      assert EdgePath(after, p);
    }
    assert EdgesOf(after, after.Keys) == kept;
  }

  lemma FlowSteps(bs: Blocks, n: Blocks)
    requires SameFlow(bs, n)
    ensures forall a, b :: Steps(n, a, b) <==> Steps(bs, a, b)
  {
    forall a, b
      ensures Steps(n, a, b) <==> Steps(bs, a, b)
    {
      assert forall s :: In(n, s, a) <==> In(bs, s, a);
      assert forall s | In(bs, s, a) :: Leads(n, s, a, b) <==> Leads(bs, s, a, b);
    }
  }

  /** The blocks marked in the visited vector. */
  ghost function Visited(bs: Blocks, start: nat, visited: seq<bool>): set<nat> {
    set s | s in bs && start <= s < start + |visited| && visited[s - start]
  }

  lemma VisitedAt(bs: Blocks, start: nat, visited: seq<bool>, addr: nat)
    requires addr in bs && start <= addr < start + |visited|
    ensures addr in Visited(bs, start, visited) <==> visited[addr - start]
  {
  }

  lemma VisitedOneMore(bs: Blocks, start: nat, visited: seq<bool>, addr: nat)
    requires addr in bs && start <= addr < start + |visited| && !visited[addr - start]
    ensures Visited(bs, start, visited[addr - start := true]) == Visited(bs, start, visited) + {addr}
    ensures |bs.Keys - Visited(bs, start, visited[addr - start := true])| < |bs.Keys - Visited(bs, start, visited)|
  {
    SmallerSet(bs.Keys - (Visited(bs, start, visited) + {addr}), bs.Keys - Visited(bs, start, visited));
  }

  lemma SearchBegins(bs: Blocks, start: nat, visited: seq<bool>)
    requires forall i | 0 <= i < |visited| :: !visited[i]
    ensures Searching(bs, start, Visited(bs, start, visited), [start], {})
  {
    ReachesStart(bs, start);
    assert Visited(bs, start, visited) == {};
  }

  /** The CHECKs on an address of a block: at or after the first, and before the end unless it is an empty last. */
  lemma WithinRegion(bs: Blocks, addr: nat)
    requires Disjoint(bs) && addr in bs
    ensures var last := Ordered.Max(bs.Keys);
            && Ordered.Min(bs.Keys) <= addr
            && (addr < last + bs[last].size <==> !(addr == last && bs[last].size == 0))
  {
    assert addr in bs.Keys;
  }

  lemma RestrictLess(bs: Blocks, keep: set<nat>, s: nat)
    ensures Restrict(bs, keep) - {s} == Restrict(bs, keep - {s})
  {
  }

  lemma KeptAreReachable(bs: Blocks, first: nat, targets: set<nat>, keep: set<nat>)
    requires first in bs && targets == EdgesOf(bs, ReachableBlocks(bs, first)) && keep <= bs.Keys
    requires forall s | s in bs :: s in keep <==> s == first || s in targets
    ensures keep == ReachableBlocks(bs, first)
    ensures EdgesOf(bs, keep) == EdgesOf(Restrict(bs, keep), Restrict(bs, keep).Keys)
  {
    forall s | s in bs
      ensures s in keep <==> s in ReachableBlocks(bs, first)
    {
      ReachableByTargets(bs, first, targets, s);
    }
    var n := Restrict(bs, keep);
    forall t | t in EdgesOf(bs, keep)
      ensures t in EdgesOf(n, n.Keys)
    {
      var s :| s in keep && s in bs && t in bs[s].outEdges;
      assert s in n.Keys;
    }
  }

  lemma SmallerSet(a: set<nat>, b: set<nat>)
    requires a < b
    ensures |a| < |b|
  {
    assert |b| == |a| + |b - a| by {
      assert b == a + (b - a);
    }
    assert b - a != {};
  }

}
