/**
 The control-flow graph of a region of guest code. Basic blocks are runs of addresses; control moves
 from an address to the next one inside a block and from a block's last address to its out-edges.
 */
module CodeRegionSpec {
  import Ordered

  datatype Block = Block(size: nat, outEdges: seq<nat>, inEdges: seq<nat>)

  type Blocks = map<nat, Block>

  /** Address a belongs to the block that starts at s. */
  predicate In(bs: Blocks, s: nat, a: nat) {
    s in bs && s <= a < s + bs[s].size
  }

  /** Address t lies in the block at s but does not start it. */
  predicate StrictlyInside(bs: Blocks, s: nat, t: nat) {
    s in bs && s < t < s + bs[s].size
  }

  ghost predicate Disjoint(bs: Blocks) {
    forall a, b | a in bs && b in bs && a < b :: a + bs[a].size <= b
  }

  ghost predicate EdgesIn(bs: Blocks, targets: set<nat>) {
    forall s, t | s in bs && t in bs[s].outEdges :: t in targets
  }

  ghost predicate Inside(bs: Blocks, t: nat) {
    exists s :: StrictlyInside(bs, s, t)
  }

  /** No target lies strictly inside a block. */
  ghost predicate NotSplitBy(bs: Blocks, targets: set<nat>) {
    forall t | t in targets :: !Inside(bs, t)
  }

  predicate Leads(bs: Blocks, s: nat, a: nat, b: nat)
    requires In(bs, s, a)
  {
    if a + 1 < s + bs[s].size then b == a + 1 else b in bs[s].outEdges
  }

  /** One step of control from address a to address b. */
  ghost predicate Steps(bs: Blocks, a: nat, b: nat) {
    exists s | In(bs, s, a) :: Leads(bs, s, a, b)
  }

  ghost predicate AddressPath(bs: Blocks, p: seq<nat>) {
    p != [] && forall i | 0 <= i < |p| - 1 :: Steps(bs, p[i], p[i + 1])
  }

  /** Control that starts at `start` can get to address a. */
  ghost predicate Executes(bs: Blocks, start: nat, a: nat) {
    exists p :: AddressPath(bs, p) && p[0] == start && p[|p| - 1] == a
  }

  ghost predicate EdgePath(bs: Blocks, p: seq<nat>) {
    p != [] && forall i | 0 <= i < |p| - 1 :: p[i] in bs && p[i + 1] in bs[p[i]].outEdges
  }

  /** Address a is `start` or can be got to from it by out-edges alone. */
  ghost predicate Reaches(bs: Blocks, start: nat, a: nat) {
    exists p :: EdgePath(bs, p) && p[0] == start && p[|p| - 1] == a
  }

  // Splitting.

  function Split(bs: Blocks, s: nat, t: nat): Blocks
    requires StrictlyInside(bs, s, t)
  {
    bs[t := Block(s + bs[s].size - t, bs[s].outEdges, [])][s := bs[s].(size := t - s, outEdges := [t])]
  }

  lemma OneOwner(bs: Blocks, a: nat, s: nat, r: nat)
    requires Disjoint(bs) && In(bs, s, a) && In(bs, r, a)
    ensures s == r
  {
  }

  lemma SplitHasSteps(bs: Blocks, s: nat, t: nat, a: nat, b: nat)
    requires Disjoint(bs) && StrictlyInside(bs, s, t) && Steps(bs, a, b)
    ensures Steps(Split(bs, s, t), a, b)
  {
    var n := Split(bs, s, t);
    var r :| In(bs, r, a) && Leads(bs, r, a, b);
    var r' := if r == s && t <= a then t else r;
    assert In(n, r', a) && Leads(n, r', a, b);
  }

  lemma SplitAddsNoSteps(bs: Blocks, s: nat, t: nat, a: nat, b: nat)
    requires Disjoint(bs) && StrictlyInside(bs, s, t) && Steps(Split(bs, s, t), a, b)
    ensures Steps(bs, a, b)
  {
    var n := Split(bs, s, t);
    var r :| In(n, r, a) && Leads(n, r, a, b);
    var r' := if r == t then s else r;
    assert t !in bs;
    assert In(bs, r', a) && Leads(bs, r', a, b);
  }

  /** Splitting a block moves no control. */
  lemma SplitKeepsSteps(bs: Blocks, s: nat, t: nat, a: nat, b: nat)
    requires Disjoint(bs) && StrictlyInside(bs, s, t)
    ensures Steps(Split(bs, s, t), a, b) <==> Steps(bs, a, b)
  {
    if Steps(bs, a, b) {
      SplitHasSteps(bs, s, t, a, b);
    }
    if Steps(Split(bs, s, t), a, b) {
      SplitAddsNoSteps(bs, s, t, a, b);
    }
  }

  lemma SplitKeepsBlocks(bs: Blocks, s: nat, t: nat, targets: set<nat>)
    requires Disjoint(bs) && EdgesIn(bs, targets) && StrictlyInside(bs, s, t) && t in targets
    ensures t !in bs
    ensures Disjoint(Split(bs, s, t)) && EdgesIn(Split(bs, s, t), targets)
  {
  }

  lemma SplitKeepsShape(bs: Blocks, s: nat, t: nat, targets: set<nat>)
    requires Disjoint(bs) && EdgesIn(bs, targets) && StrictlyInside(bs, s, t) && t in targets
    ensures t !in bs
    ensures Disjoint(Split(bs, s, t)) && EdgesIn(Split(bs, s, t), targets)
    ensures Cuts(bs, Split(bs, s, t)) && !Inside(Split(bs, s, t), t)
  {
    SplitKeepsBlocks(bs, s, t, targets);
    SplitCuts(bs, s, t);
  }

  lemma SplitCuts(bs: Blocks, s: nat, t: nat)
    requires Disjoint(bs) && StrictlyInside(bs, s, t) && t !in bs
    ensures Cuts(bs, Split(bs, s, t)) && !Inside(Split(bs, s, t), t)
  {
    var n := Split(bs, s, t);
    forall r, u | StrictlyInside(n, r, u)
      ensures u != t && Inside(bs, u)
    {
      assert StrictlyInside(bs, if r == t then s else r, u);
    }
    forall a, b {
      SplitKeepsSteps(bs, s, t, a, b);
    }
  }

  /** n is bs with some blocks cut in two: the same control, at least the same blocks. */
  ghost predicate Cuts(bs: Blocks, n: Blocks) {
    && (forall a, b :: Steps(n, a, b) <==> Steps(bs, a, b))
    && (forall k | k in bs :: k in n)
    && (forall k | k in n :: k in bs || Inside(bs, k))
    && (forall u | Inside(n, u) :: Inside(bs, u))
  }

  lemma CutsAgain(bs: Blocks, m: Blocks, n: Blocks)
    requires Cuts(bs, m) && Cuts(m, n)
    ensures Cuts(bs, n)
  {
  }

  lemma CutsKeepsFirst(bs: Blocks, n: Blocks)
    requires Cuts(bs, n) && bs != map[]
    ensures n != map[] && Ordered.Min(n.Keys) == Ordered.Min(bs.Keys)
  {
    assert Ordered.Min(bs.Keys) in n.Keys;
    forall k | k in n
      ensures Ordered.Min(bs.Keys) <= k
    {
      if k !in bs {
        var q :| StrictlyInside(bs, q, k);
        assert q in bs.Keys;
      }
    }
  }

  lemma CutsSelf(bs: Blocks)
    ensures Cuts(bs, bs)
  {
  }

  /** Only the last block that starts at or before an address can have it inside. */
  lemma FloorDecides(bs: Blocks, s: nat, t: nat)
    requires Disjoint(bs) && s in bs && s <= t && forall r | r in bs && r <= t :: r <= s
    ensures Inside(bs, t) <==> StrictlyInside(bs, s, t)
  {
    if Inside(bs, t) {
      var q :| StrictlyInside(bs, q, t);
      assert q == s;
    }
  }

  /** The blocks after a cut at t, if t lies inside one. */
  ghost function CutAt(bs: Blocks, t: nat): Blocks {
    if Inside(bs, t) then
      var s :| StrictlyInside(bs, s, t);
      Split(bs, s, t)
    else bs
  }

  /** The blocks after cuts at all targets, in increasing order. */
  ghost function CutAtAll(bs: Blocks, targets: set<nat>): Blocks
    decreases |targets|
  {
    if targets == {} then bs else CutAtAll(CutAt(bs, Ordered.Min(targets)), targets - {Ordered.Min(targets)})
  }

  lemma SplitKeepsEnd(bs: Blocks, s: nat, t: nat)
    requires Disjoint(bs) && StrictlyInside(bs, s, t) && 0 < bs[Ordered.Max(bs.Keys)].size
    ensures var n := Split(bs, s, t); n != map[] && 0 < n[Ordered.Max(n.Keys)].size
  {
    var last, n := Ordered.Max(bs.Keys), Split(bs, s, t);
    var end := if s == last then t else last;
    assert s in bs.Keys;
    assert t <= end && last <= end;
    forall k | k in n.Keys ensures k <= end {
      assert k in bs.Keys || k == t;
    }
    assert end in n.Keys;
    assert Ordered.Max(n.Keys) == end;
  }

  lemma CutKeepsEnd(bs: Blocks, t: nat)
    requires Disjoint(bs) && bs != map[] && 0 < bs[Ordered.Max(bs.Keys)].size
    ensures var n := CutAt(bs, t); Disjoint(n) && n != map[] && 0 < n[Ordered.Max(n.Keys)].size
  {
    if Inside(bs, t) {
      var s :| StrictlyInside(bs, s, t) && CutAt(bs, t) == Split(bs, s, t);
      SplitKeepsBlocks(bs, s, t, EdgesOf(bs, bs.Keys) + {t});
      SplitKeepsEnd(bs, s, t);
    }
  }

  /** A region whose last block has code cannot fail that way. */
  lemma {:induction false} CodeAtEndPasses(bs: Blocks, targets: set<nat>)
    requires Disjoint(bs) && bs != map[] && 0 < bs[Ordered.Max(bs.Keys)].size
    ensures !EmptyEndReached(CutAtAll(bs, targets))
    decreases |targets|
  {
    if targets != {} {
      var t := Ordered.Min(targets);
      CutKeepsEnd(bs, t);
      CodeAtEndPasses(CutAt(bs, t), targets - {t});
    }
  }

  /** The region ends in a block without code that the search for reachable blocks gets to. */
  ghost predicate EmptyEndReached(bs: Blocks) {
    && bs != map[] && bs[Ordered.Max(bs.Keys)].size == 0
    && Reaches(bs, Ordered.Min(bs.Keys), Ordered.Max(bs.Keys))
  }

  // Paths.

  lemma {:induction false} SameStepsSamePaths(bs: Blocks, n: Blocks, p: seq<nat>)
    requires forall a, b :: Steps(bs, a, b) <==> Steps(n, a, b)
    ensures AddressPath(bs, p) <==> AddressPath(n, p)
  {
  }

  /** Equal step relations execute the same addresses. */
  lemma SameStepsSameExecution(bs: Blocks, n: Blocks, start: nat, a: nat)
    requires forall a, b :: Steps(bs, a, b) <==> Steps(n, a, b)
    ensures Executes(bs, start, a) <==> Executes(n, start, a)
  {
    if Executes(bs, start, a) {
      var p :| AddressPath(bs, p) && p[0] == start && p[|p| - 1] == a;
      SameStepsSamePaths(bs, n, p);
    }
    if Executes(n, start, a) {
      var p :| AddressPath(n, p) && p[0] == start && p[|p| - 1] == a;
      SameStepsSamePaths(bs, n, p);
    }
  }

  lemma ReachesStart(bs: Blocks, start: nat)
    ensures Reaches(bs, start, start)
  {
    assert EdgePath(bs, [start]);
  }

  lemma ReachesNext(bs: Blocks, start: nat, s: nat, t: nat)
    requires Reaches(bs, start, s) && s in bs && t in bs[s].outEdges
    ensures Reaches(bs, start, t)
  {
    var p :| EdgePath(bs, p) && p[0] == start && p[|p| - 1] == s;
    assert EdgePath(bs, p + [t]);
  }

  // The last block, before any cut.

  /** Block q starts at a or has it inside. */
  predicate Holds(bs: Blocks, q: nat, a: nat) {
    q in bs && (a == q || StrictlyInside(bs, q, a))
  }

  /** Control that enters a block at a can leave it for b. */
  ghost predicate Flows(bs: Blocks, a: nat, b: nat) {
    exists q | Holds(bs, q, a) :: b in bs[q].outEdges
  }

  ghost predicate FlowPath(bs: Blocks, p: seq<nat>) {
    p != [] && forall i | 0 <= i < |p| - 1 :: Flows(bs, p[i], p[i + 1])
  }

  ghost predicate FlowReaches(bs: Blocks, start: nat, a: nat) {
    exists p :: FlowPath(bs, p) && p[0] == start && p[|p| - 1] == a
  }

  /** The last block has no code, and control that starts at the first block gets to it. */
  ghost predicate EntersEmptyEnd(bs: Blocks) {
    && bs != map[] && bs[Ordered.Max(bs.Keys)].size == 0
    && FlowReaches(bs, Ordered.Min(bs.Keys), Ordered.Max(bs.Keys))
  }

  /** Block r of n is a piece of block q: its last, which leaves as q does, or one that leads on to the next piece. */
  predicate PieceOf(bs: Blocks, q: nat, n: Blocks, r: nat) {
    && r in n && Holds(bs, q, r)
    && var next := r + n[r].size;
    if next == q + bs[q].size then n[r].outEdges == bs[q].outEdges
    else r < next && n[r].outEdges == [next] && next in n && StrictlyInside(bs, q, next)
  }

  ghost predicate IsPiece(bs: Blocks, n: Blocks, r: nat) {
    exists q :: PieceOf(bs, q, n, r)
  }

  ghost predicate HasCode(bs: Blocks, a: nat) {
    exists s :: In(bs, s, a)
  }

  /** n is bs in pieces. */
  ghost predicate Pieces(bs: Blocks, n: Blocks) {
    && (forall k | k in bs :: k in n)
    && (forall r {:trigger IsPiece(bs, n, r)} | r in n :: IsPiece(bs, n, r))
    && (forall a | HasCode(bs, a) :: HasCode(n, a))
  }

  lemma PiecesSelf(bs: Blocks)
    ensures Pieces(bs, bs)
  {
    forall r | r in bs ensures IsPiece(bs, bs, r) {
      assert PieceOf(bs, r, bs, r);
    }
  }

  lemma SplitPiece(bs: Blocks, n: Blocks, s: nat, t: nat, q: nat, r: nat)
    requires Disjoint(n) && StrictlyInside(n, s, t) && PieceOf(bs, q, n, if r == t then s else r) && r in Split(n, s, t)
    ensures PieceOf(bs, q, Split(n, s, t), r)
  {
    assert t !in n;
  }

  lemma SplitKeepsCode(n: Blocks, s: nat, t: nat, a: nat)
    requires StrictlyInside(n, s, t) && t !in n && HasCode(n, a)
    ensures HasCode(Split(n, s, t), a)
  {
    var r :| In(n, r, a);
    assert In(Split(n, s, t), if r == s && t <= a then t else r, a);
  }

  lemma SplitPieces(bs: Blocks, n: Blocks, s: nat, t: nat)
    requires Pieces(bs, n) && Disjoint(n) && StrictlyInside(n, s, t)
    ensures Pieces(bs, Split(n, s, t))
  {
    var m := Split(n, s, t);
    forall r | r in m ensures IsPiece(bs, m, r) {
      assert IsPiece(bs, n, if r == t then s else r);
      var q :| PieceOf(bs, q, n, if r == t then s else r);
      SplitPiece(bs, n, s, t, q, r);
    }
    forall a | HasCode(bs, a) ensures HasCode(m, a) {
      SplitKeepsCode(n, s, t, a);
    }
  }

  /** All cuts: blocks in pieces, and no target inside a piece. */
  lemma {:induction false} CutAtAllPieces(bs: Blocks, n: Blocks, todo: set<nat>, all: set<nat>)
    requires Pieces(bs, n) && Disjoint(n) && EdgesIn(n, all) && todo <= all && NotSplitBy(n, all - todo)
    ensures var m := CutAtAll(n, todo); Pieces(bs, m) && Disjoint(m) && EdgesIn(m, all) && NotSplitBy(m, all)
    decreases |todo|
  {
    if todo == {} {
      assert all - todo == all;
    } else {
      var t := Ordered.Min(todo);
      var m := CutAt(n, t);
      if Inside(n, t) {
        var s :| StrictlyInside(n, s, t) && m == Split(n, s, t);
        SplitPieces(bs, n, s, t);
        SplitKeepsShape(n, s, t, all);
      }
      forall u | u in all - (todo - {t}) ensures !Inside(m, u) {
        assert u == t || u in all - todo;
      }
      CutAtAllPieces(bs, m, todo - {t}, all);
    }
  }

  lemma FlowReachesNext(bs: Blocks, start: nat, q: nat, a: nat, b: nat)
    requires FlowReaches(bs, start, a) && Holds(bs, q, a) && b in bs[q].outEdges
    ensures FlowReaches(bs, start, b)
  {
    var p :| FlowPath(bs, p) && p[0] == start && p[|p| - 1] == a;
    assert Flows(bs, a, b);
    assert FlowPath(bs, p + [b]);
  }

  /** Block q is entered at some address that control gets to. */
  ghost predicate Entered(bs: Blocks, start: nat, q: nat) {
    exists a :: Holds(bs, q, a) && FlowReaches(bs, start, a)
  }

  /** Edges between pieces get only into blocks that control enters. */
  lemma {:induction false} PiecesEntered(bs: Blocks, n: Blocks, start: nat, p: seq<nat>, q: nat)
    requires Disjoint(bs) && Pieces(bs, n) && EdgePath(n, p) && p[0] == start && Holds(bs, q, p[|p| - 1])
    ensures Entered(bs, start, q)
    decreases |p|
  {
    if |p| == 1 {
      assert FlowPath(bs, p);
    } else {
      var r, a := p[|p| - 2], p[|p| - 1];
      assert IsPiece(bs, n, r);
      var o :| PieceOf(bs, o, n, r);
      assert EdgePath(n, p[..|p| - 1]);
      PiecesEntered(bs, n, start, p[..|p| - 1], o);
      if a in bs[o].outEdges {
        var e :| Holds(bs, o, e) && FlowReaches(bs, start, e);
        FlowReachesNext(bs, start, o, e, a);
      } else {
        assert o == q;
      }
    }
  }

  /** From any piece of q the pieces after it lead to q's own out-edges. */
  lemma {:induction false} PiecesLeadOut(bs: Blocks, n: Blocks, start: nat, q: nat, r: nat, b: nat)
    requires Disjoint(bs) && Pieces(bs, n) && Reaches(n, start, r) && r in n && Holds(bs, q, r)
    requires b in bs[q].outEdges
    ensures Reaches(n, start, b)
    decreases q + bs[q].size - r
  {
    assert IsPiece(bs, n, r);
    var o :| PieceOf(bs, o, n, r);
    assert o == q;
    var next := r + n[r].size;
    if next == q + bs[q].size {
      ReachesNext(n, start, r, b);
    } else {
      ReachesNext(n, start, r, next);
      PiecesLeadOut(bs, n, start, q, next, b);
    }
  }

  /** An address that is entered starts a piece. */
  lemma EnteredStartsPiece(bs: Blocks, n: Blocks, all: set<nat>, q: nat, a: nat)
    requires Pieces(bs, n) && NotSplitBy(n, all) && Holds(bs, q, a) && (a in bs || a in all)
    ensures a in n
  {
    if a !in bs {
      assert In(bs, q, a);
      assert HasCode(bs, a) && HasCode(n, a) && !Inside(n, a);
      var r :| In(n, r, a);
      assert !StrictlyInside(n, r, a);
    }
  }

  lemma {:induction false} FlowReachedByPieces(bs: Blocks, n: Blocks, all: set<nat>, p: seq<nat>)
    requires Disjoint(bs) && EdgesIn(bs, all) && Pieces(bs, n) && NotSplitBy(n, all)
    requires FlowPath(bs, p) && p[0] in bs
    ensures Reaches(n, p[0], p[|p| - 1])
    ensures p[|p| - 1] in bs || p[|p| - 1] in all
    decreases |p|
  {
    if |p| == 1 {
      ReachesStart(n, p[0]);
    } else {
      var a, b := p[|p| - 2], p[|p| - 1];
      assert FlowPath(bs, p[..|p| - 1]);
      FlowReachedByPieces(bs, n, all, p[..|p| - 1]);
      assert Flows(bs, a, b);
      var q :| Holds(bs, q, a) && b in bs[q].outEdges;
      EnteredStartsPiece(bs, n, all, q, a);
      PiecesLeadOut(bs, n, p[0], q, a, b);
    }
  }

  lemma PiecesKeepEnds(bs: Blocks, n: Blocks)
    requires Disjoint(bs) && bs != map[] && Pieces(bs, n) && bs[Ordered.Max(bs.Keys)].size == 0
    ensures n != map[] && Ordered.Min(n.Keys) == Ordered.Min(bs.Keys)
    ensures Ordered.Max(n.Keys) == Ordered.Max(bs.Keys) && n[Ordered.Max(n.Keys)].size == 0
  {
    var first, last := Ordered.Min(bs.Keys), Ordered.Max(bs.Keys);
    assert first in n.Keys && last in n.Keys;
    forall r | r in n.Keys ensures first <= r <= last {
      assert IsPiece(bs, n, r);
      var q :| PieceOf(bs, q, n, r);
      assert q in bs.Keys && first <= q <= last;
    }
    assert IsPiece(bs, n, last);
    var q :| PieceOf(bs, q, n, last);
    assert q == last;
  }

  /**
   The search fails its CHECK exactly when the region as recorded ends in a block without code and control gets
   there from the first block.
   */
  lemma EmptyEndExactly(bs: Blocks, targets: set<nat>)
    requires Disjoint(bs) && EdgesIn(bs, targets) && bs != map[]
    ensures EmptyEndReached(CutAtAll(bs, targets)) <==> EntersEmptyEnd(bs)
  {
    var first, last := Ordered.Min(bs.Keys), Ordered.Max(bs.Keys);
    assert first in bs.Keys && last in bs.Keys;
    if bs[last].size == 0 {
      PiecesSelf(bs);
      CutAtAllPieces(bs, bs, targets, targets);
      var n := CutAtAll(bs, targets);
      PiecesKeepEnds(bs, n);
      if Reaches(n, first, last) {
        var p :| EdgePath(n, p) && p[0] == first && p[|p| - 1] == last;
        PiecesEntered(bs, n, first, p, last);
        var a :| Holds(bs, last, a) && FlowReaches(bs, first, a);
        assert a == last;
      }
      if FlowReaches(bs, first, last) {
        var p :| FlowPath(bs, p) && p[0] == first && p[|p| - 1] == last;
        FlowReachedByPieces(bs, n, targets, p);
      }
    } else {
      CodeAtEndPasses(bs, targets);
    }
  }

  /** The smallest region that fails: one block that branches to an empty one. */
  lemma EmptyEndExample()
    ensures var bs: Blocks := map[0 := Block(4, [4], []), 4 := Block(0, [], [])];
            && Disjoint(bs) && EdgesIn(bs, {4}) && EmptyEndReached(CutAtAll(bs, {4}))
  {
    var bs: Blocks := map[0 := Block(4, [4], []), 4 := Block(0, [], [])];
    assert bs.Keys == {0, 4};
    assert Ordered.Min({0, 4}) == 0 && Ordered.Max({0, 4}) == 4;
    assert FlowReaches(bs, 0, 4) by {
      assert Holds(bs, 0, 0) && Flows(bs, 0, 4);
      assert FlowPath(bs, [0, 4]);
    }
    EmptyEndExactly(bs, {4});
  }

  // Pruning.

  function Restrict(bs: Blocks, keep: set<nat>): Blocks {
    map s | s in bs && s in keep :: bs[s]
  }

  /** The union of the out-edges of some blocks. */
  function EdgesOf(bs: Blocks, keys: set<nat>): set<nat> {
    set s, t | s in keys && s in bs && t in bs[s].outEdges :: t
  }

  lemma EdgesOfOneMore(bs: Blocks, keys: set<nat>, a: nat)
    requires a in bs
    ensures EdgesOf(bs, keys + {a}) == EdgesOf(bs, keys) + set t | t in bs[a].outEdges
  {
    forall t | t in EdgesOf(bs, keys) || t in bs[a].outEdges
      ensures t in EdgesOf(bs, keys + {a})
    {
      if t in EdgesOf(bs, keys) {
        var s :| s in keys && s in bs && t in bs[s].outEdges;
        assert s in keys + {a};
      } else {
        assert a in keys + {a};
      }
    }
  }

  ghost function ReachableBlocks(bs: Blocks, start: nat): set<nat> {
    set s | s in bs && Reaches(bs, start, s)
  }

  /** Every executed address that is in a block is in a reachable block. */
  lemma {:induction false} ExecutedInReachable(bs: Blocks, targets: set<nat>, start: nat, p: seq<nat>, s: nat)
    requires Disjoint(bs) && EdgesIn(bs, targets) && NotSplitBy(bs, targets) && start in bs
    requires AddressPath(bs, p) && p[0] == start && In(bs, s, p[|p| - 1])
    ensures Reaches(bs, start, s)
    decreases |p|
  {
    var a := p[|p| - 1];
    if |p| == 1 {
      assert s == start;
      ReachesStart(bs, start);
    } else {
      var q, b := p[..|p| - 1], p[|p| - 2];
      assert Steps(bs, b, a);
      var r: nat :| In(bs, r, b) && Leads(bs, r, b, a);
      assert AddressPath(bs, q);
      ExecutedInReachable(bs, targets, start, q, r);
      if b + 1 < r + bs[r].size {
        OneOwner(bs, a, r, s);
      } else {
        ReachesNext(bs, start, r, a);
        assert !Inside(bs, a) && !StrictlyInside(bs, s, a);
      }
    }
  }

  /** Dropping unreachable blocks changes no step from an executed address. */
  lemma PruneKeepsSteps(bs: Blocks, targets: set<nat>, start: nat, a: nat, b: nat)
    requires Disjoint(bs) && EdgesIn(bs, targets) && NotSplitBy(bs, targets) && start in bs
    requires Executes(bs, start, a)
    ensures Steps(bs, a, b) <==> Steps(Restrict(bs, ReachableBlocks(bs, start)), a, b)
  {
    var n := Restrict(bs, ReachableBlocks(bs, start));
    if Steps(bs, a, b) {
      var s :| In(bs, s, a) && Leads(bs, s, a, b);
      var p :| AddressPath(bs, p) && p[0] == start && p[|p| - 1] == a;
      ExecutedInReachable(bs, targets, start, p, s);
      assert In(n, s, a) && Leads(n, s, a, b);
    }
    if Steps(n, a, b) {
      var s :| In(n, s, a) && Leads(n, s, a, b);
      assert In(bs, s, a) && Leads(bs, s, a, b);
    }
  }

  lemma PrefixExecutes(bs: Blocks, start: nat, p: seq<nat>, i: nat)
    requires AddressPath(bs, p) && p[0] == start && i < |p|
    ensures Executes(bs, start, p[i])
  {
    assert AddressPath(bs, p[..i + 1]);
  }

  /** Pruning executes exactly the addresses that were executed before. */
  lemma PruneKeepsExecution(bs: Blocks, targets: set<nat>, start: nat, a: nat)
    requires Disjoint(bs) && EdgesIn(bs, targets) && NotSplitBy(bs, targets) && start in bs
    ensures Executes(bs, start, a) <==> Executes(Restrict(bs, ReachableBlocks(bs, start)), start, a)
  {
    var n := Restrict(bs, ReachableBlocks(bs, start));
    if Executes(bs, start, a) {
      var p :| AddressPath(bs, p) && p[0] == start && p[|p| - 1] == a;
      forall i | 0 <= i < |p| - 1
        ensures Steps(n, p[i], p[i + 1])
      {
        PrefixExecutes(bs, start, p, i);
        PruneKeepsSteps(bs, targets, start, p[i], p[i + 1]);
      }
      assert AddressPath(n, p);
    }
    if Executes(n, start, a) {
      var p :| AddressPath(n, p) && p[0] == start && p[|p| - 1] == a;
      forall i | 0 <= i < |p| - 1
        ensures Steps(bs, p[i], p[i + 1])
      {
        assert Steps(n, p[i], p[i + 1]);
        var s :| In(n, s, p[i]) && Leads(n, s, p[i], p[i + 1]);
        assert In(bs, s, p[i]) && Leads(bs, s, p[i], p[i + 1]);
      }
      assert AddressPath(bs, p);
    }
  }

  /** A set of blocks that holds the start and is closed under out-edges holds every reachable block. */
  lemma {:induction false} ClosedHoldsReachable(bs: Blocks, start: nat, closed: set<nat>, p: seq<nat>)
    requires start in closed
    requires forall s, t | s in closed && s in bs && t in bs[s].outEdges && t in bs :: t in closed
    requires EdgePath(bs, p) && p[0] == start && p[|p| - 1] in bs
    ensures p[|p| - 1] in closed
    decreases |p|
  {
    if |p| > 1 {
      var q := p[..|p| - 1];
      assert EdgePath(bs, q);
      ClosedHoldsReachable(bs, start, closed, q);
    }
  }

  /**
   The worklist search between two turns: `seen` are visited blocks, `worklist` addresses still to look
   at, and `found` the out-edges of the visited blocks.
   */
  ghost predicate Searching(bs: Blocks, start: nat, seen: set<nat>, worklist: seq<nat>, found: set<nat>) {
    && seen <= bs.Keys
    && (forall w | w in worklist :: Reaches(bs, start, w))
    && (forall s | s in seen :: Reaches(bs, start, s))
    && (start in seen || start in worklist)
    && (forall s, t | s in seen && t in bs[s].outEdges && t in bs :: t in seen || t in worklist)
    && found == EdgesOf(bs, seen)
  }

  lemma SearchSkip(bs: Blocks, start: nat, seen: set<nat>, worklist: seq<nat>, found: set<nat>)
    requires Searching(bs, start, seen, worklist, found) && start in bs
    requires worklist != [] && (worklist[0] !in bs || worklist[0] in seen)
    ensures Searching(bs, start, seen, worklist[1..], found)
  {
    assert forall w | w in worklist :: w == worklist[0] || w in worklist[1..];
  }

  lemma SearchVisit(bs: Blocks, start: nat, seen: set<nat>, worklist: seq<nat>, found: set<nat>)
    requires Searching(bs, start, seen, worklist, found)
    requires worklist != [] && worklist[0] in bs && worklist[0] !in seen
    ensures var a := worklist[0];
            var out := bs[a].outEdges;
            Searching(bs, start, seen + {a}, worklist[1..] + out, found + set t | t in out)
  {
    var a := worklist[0];
    var out := bs[a].outEdges;
    var rest := worklist[1..] + out;
    assert forall w | w in worklist :: w == a || w in worklist[1..];
    assert forall w | w in worklist[1..] || w in out :: w in rest;
    forall w | w in rest
      ensures Reaches(bs, start, w)
    {
      if w in out {
        ReachesNext(bs, start, a, w);
      } else {
        assert w in worklist;
      }
    }
    EdgesOfOneMore(bs, seen, a);
    forall s, t | s in seen + {a} && t in bs[s].outEdges && t in bs
      ensures t in seen + {a} || t in rest
    {
      if s in seen {
        assert t in seen || t in worklist;
      }
    }
  }

  /** When the worklist is empty the visited blocks are the reachable ones. */
  lemma SearchDone(bs: Blocks, start: nat, seen: set<nat>, found: set<nat>)
    requires Searching(bs, start, seen, [], found)
    ensures seen == ReachableBlocks(bs, start)
  {
    forall s | s in ReachableBlocks(bs, start)
      ensures s in seen
    {
      var p :| EdgePath(bs, p) && p[0] == start && p[|p| - 1] == s;
      ClosedHoldsReachable(bs, start, seen, p);
    }
  }

  /** A block is reachable when it is the first or some reachable block leads to it. */
  lemma ReachableByTargets(bs: Blocks, first: nat, targets: set<nat>, s: nat)
    requires first in bs && s in bs
    requires targets == EdgesOf(bs, ReachableBlocks(bs, first))
    ensures s in ReachableBlocks(bs, first) <==> s == first || s in targets
  {
    ReachesStart(bs, first);
    if s in targets {
      var r :| r in ReachableBlocks(bs, first) && s in bs[r].outEdges;
      ReachesNext(bs, first, r, s);
    }
    if s != first && Reaches(bs, first, s) {
      var p :| EdgePath(bs, p) && p[0] == first && p[|p| - 1] == s;
      var r := p[|p| - 2];
      assert EdgePath(bs, p[..|p| - 1]);
      assert r in ReachableBlocks(bs, first) && s in bs[r].outEdges;
    }
  }

  /** Reachable blocks of the pruned region are reached inside it. */
  lemma {:induction false} PruneKeepsReaches(bs: Blocks, start: nat, p: seq<nat>)
    requires EdgePath(bs, p) && p[0] == start
    ensures EdgePath(Restrict(bs, ReachableBlocks(bs, start)), p)
    decreases |p|
  {
    var n := Restrict(bs, ReachableBlocks(bs, start));
    forall i | 0 <= i < |p| - 1
      ensures p[i] in n && p[i + 1] in n[p[i]].outEdges
    {
      assert EdgePath(bs, p[..i + 1]);
      assert p[..i + 1][|p[..i + 1]| - 1] == p[i];
    }
  }

  // In-edges.

  /** How often block s leads to t. */
  ghost function Edges(bs: Blocks, s: nat, t: nat): nat {
    if s in bs then multiset(bs[s].outEdges)[t] else 0
  }

  /** In-edges are the converse of out-edges, counted with multiplicity, for the given sources. */
  ghost predicate Converse(bs: Blocks, sources: set<nat>) {
    forall s, t | t in bs :: multiset(bs[t].inEdges)[s] == if s in sources then Edges(bs, s, t) else 0
  }

  /** The same with some of the source's out-edges done. */
  ghost predicate PartlyConverse(bs: Blocks, sources: set<nat>, source: nat, part: seq<nat>) {
    forall s, t | t in bs :: PartlyCounted(bs, sources, source, part, s, t)
  }

  ghost predicate PartlyCounted(bs: Blocks, sources: set<nat>, source: nat, part: seq<nat>, s: nat, t: nat)
    requires t in bs
  {
    multiset(bs[t].inEdges)[s] == if s in sources then Edges(bs, s, t) else if s == source then multiset(part)[t] else 0
  }

  /** Only in-edges differ. */
  ghost predicate SameFlow(bs: Blocks, n: Blocks) {
    n.Keys == bs.Keys && forall s | s in bs :: n[s].size == bs[s].size && n[s].outEdges == bs[s].outEdges
  }

  function WithInEdge(bs: Blocks, target: nat, source: nat): Blocks {
    if target in bs then bs[target := bs[target].(inEdges := bs[target].inEdges + [source])] else bs
  }

  lemma WithInEdgeCounts(bs: Blocks, target: nat, source: nat, s: nat, t: nat)
    requires t in bs
    ensures var n := WithInEdge(bs, target, source);
            && t in n && Edges(n, s, t) == Edges(bs, s, t)
            && multiset(n[t].inEdges)[s] == multiset(bs[t].inEdges)[s] + if s == source && t == target then 1 else 0
  {
    if t == target {
      assert multiset(bs[t].inEdges + [source]) == multiset(bs[t].inEdges) + multiset{source};
    }
  }

  lemma AddOneAt(bs: Blocks, sources: set<nat>, source: nat, part: seq<nat>, target: nat, s: nat, t: nat)
    requires t in bs && PartlyCounted(bs, sources, source, part, s, t) && source !in sources
    ensures t in WithInEdge(bs, target, source)
    ensures PartlyCounted(WithInEdge(bs, target, source), sources, source, part + [target], s, t)
  {
    WithInEdgeCounts(bs, target, source, s, t);
    assert multiset(part + [target]) == multiset(part) + multiset{target};
  }

  lemma AddOne(bs: Blocks, sources: set<nat>, source: nat, part: seq<nat>, target: nat)
    requires PartlyConverse(bs, sources, source, part) && source !in sources
    ensures PartlyConverse(WithInEdge(bs, target, source), sources, source, part + [target])
  {
    var n := WithInEdge(bs, target, source);
    forall s, t | t in n ensures PartlyCounted(n, sources, source, part + [target], s, t) {
      assert PartlyCounted(bs, sources, source, part, s, t);
      AddOneAt(bs, sources, source, part, target, s, t);
    }
  }

  lemma PartlyIsConverse(bs: Blocks, sources: set<nat>, source: nat)
    requires source in bs && source !in sources
    ensures PartlyConverse(bs, sources, source, bs[source].outEdges) ==> Converse(bs, sources + {source})
    ensures Converse(bs, sources) ==> PartlyConverse(bs, sources, source, [])
  {
    if PartlyConverse(bs, sources, source, bs[source].outEdges) {
      forall s, t | t in bs
        ensures multiset(bs[t].inEdges)[s] == if s in sources + {source} then Edges(bs, s, t) else 0
      {
        assert PartlyCounted(bs, sources, source, bs[source].outEdges, s, t);
      }
    }
  }

  lemma SameFlowAgain(bs: Blocks, m: Blocks, n: Blocks)
    requires SameFlow(bs, m) && SameFlow(m, n)
    ensures SameFlow(bs, n)
  {
  }
}
