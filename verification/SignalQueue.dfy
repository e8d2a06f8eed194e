/** The pending-signal queue as the program has it: two linked lists relinked in place. */
module SignalQueueImpl {
  import opened SignalQueueSpec

  class Node {
    const info: Signal
    var next: Node?

    constructor (info: Signal)
      ensures this.info == info && next == null
    {
      this.info := info;
      next := null;
    }
  }

  ghost predicate IsList(head: Node?, nodes: seq<Node>)
    reads nodes
  {
    && (head == null <==> nodes == [])
    && (nodes != [] ==> nodes[0] == head && nodes[|nodes| - 1].next == null)
    && (forall i | 0 <= i < |nodes| - 1 :: nodes[i].next == nodes[i + 1])
  }

  ghost predicate Distinct(nodes: seq<Node>) {
    forall i, j | 0 <= i < j < |nodes| :: nodes[i] != nodes[j]
  }

  ghost predicate Apart(a: seq<Node>, b: seq<Node>) {
    forall i, j | 0 <= i < |a| && 0 <= j < |b| :: a[i] != b[j]
  }

  ghost function Infos(nodes: seq<Node>): (r: seq<Signal>)
    ensures |r| == |nodes|
  {
    seq(|nodes|, i requires 0 <= i < |nodes| => nodes[i].info)
  }

  /** What may happen to the produced list while an enqueue is between its load and its compare-and-swap. */
  datatype Meanwhile = Pushed(node: Node) | Taken

  datatype Try = Try(meanwhile: seq<Meanwhile>, spurious: bool)

  ghost function After(nodes: seq<Node>, ms: seq<Meanwhile>): seq<Node>
    decreases |ms|
  {
    if ms == [] then nodes else After(if ms[0].Pushed? then [ms[0].node] + nodes else [], ms[1..])
  }

  /** Nobody pushes a node that is in the queue, nor the one being enqueued. */
  ghost predicate MayMeddle(nodes: seq<Node>, consumed: seq<Node>, node: Node, ms: seq<Meanwhile>)
    decreases |ms|
  {
    && node !in nodes
    && (ms != [] ==>
          && (ms[0].Pushed? ==> ms[0].node != node && ms[0].node !in nodes && ms[0].node !in consumed)
          && MayMeddle(After(nodes, [ms[0]]), consumed, node, ms[1..]))
  }

  ghost function Head(nodes: seq<Node>): Node? {
    if nodes == [] then null else nodes[0]
  }

  ghost predicate MayTry(nodes: seq<Node>, consumed: seq<Node>, node: Node, tries: seq<Try>)
    decreases |tries|
  {
    && node !in nodes && node !in consumed
    && (tries != [] ==>
          && MayMeddle(nodes, consumed, node, tries[0].meanwhile)
          && MayTry(After(nodes, tries[0].meanwhile), consumed, node, tries[1..]))
  }

  ghost function PushedBy(ms: seq<Meanwhile>): set<Node> {
    set m | m in ms && m.Pushed? :: m.node
  }

  ghost function PushedInAll(tries: seq<Try>): set<Node> {
    set t, m | t in tries && m in t.meanwhile && m.Pushed? :: m.node
  }

  /** The first attempt that is not spurious and finds the head it loaded succeeds. */
  ghost function Attempts(nodes: seq<Node>, node: Node, tries: seq<Try>): (seq<Node>, bool)
    decreases |tries|
  {
    if tries == [] then (nodes, false)
    else
      var now := After(nodes, tries[0].meanwhile);
      if !tries[0].spurious && Head(now) == Head(nodes) then ([node] + now, true) else Attempts(now, node, tries[1..])
  }

  ghost function AfterTries(nodes: seq<Node>, tries: seq<Try>): seq<Node>
    decreases |tries|
  {
    if tries == [] then nodes else AfterTries(After(nodes, tries[0].meanwhile), tries[1..])
  }

  /** However often it is retried, an enqueue pushes its node once, in front of everything others have left there. */
  lemma {:induction false} EnqueueLosesNothing(nodes: seq<Node>, node: Node, tries: seq<Try>) returns (n: nat)
    ensures n <= |tries| && (Attempts(nodes, node, tries).1 || n == |tries|)
    ensures Attempts(nodes, node, tries).0 ==
            (if Attempts(nodes, node, tries).1 then [node] else []) + AfterTries(nodes, tries[..n])
    decreases |tries|
  {
    n := 0;
    if tries == [] {
      assert [] + nodes == nodes;
    } else {
      var now := After(nodes, tries[0].meanwhile);
      if !tries[0].spurious && Head(now) == Head(nodes) {
        n := 1;
        assert tries[..1][1..] == [] && tries[..1][0] == tries[0];
        assert AfterTries(nodes, tries[..1]) == AfterTries(now, []);
      } else {
        var k := EnqueueLosesNothing(now, node, tries[1..]);
        n := k + 1;
        assert tries[..n][1..] == tries[1..][..k];
      }
    }
  }

  /** Left alone, the first attempt succeeds. */
  lemma UndisturbedEnqueue(nodes: seq<Node>, node: Node)
    ensures Attempts(nodes, node, [Try([], false)]) == ([node] + nodes, true)
  {
  }

  class SignalQueue {
    var produced: Node?
    var consumed: Node?
    ghost var producedNodes: seq<Node>
    ghost var consumedNodes: seq<Node>

    ghost predicate Valid()
      reads this, producedNodes, consumedNodes
    {
      && IsList(produced, producedNodes)
      && IsList(consumed, consumedNodes)
      && Distinct(producedNodes) && Distinct(consumedNodes) && Apart(producedNodes, consumedNodes)
    }

    constructor ()
      ensures Valid() && producedNodes == [] && consumedNodes == []
    {
      produced, consumed, producedNodes, consumedNodes := null, null, [], [];
    }

    /**
     One attempt of the enqueue loop's compare-and-swap, which may also fail for no reason. Otherwise it
     succeeds exactly while the head is the node linked behind, and then pushes exactly one node.
     */
    method TryPush(node: Node, spurious: bool) returns (ok: bool)
      requires Valid() && node !in producedNodes && node !in consumedNodes
      modifies this`produced, this`producedNodes
      ensures Valid()
      ensures ok == (!spurious && old(produced) == node.next)
      ensures producedNodes == if ok then [node] + old(producedNodes) else old(producedNodes)
    {
      ok := !spurious && produced == node.next;
      if ok {
        produced := node;
        producedNodes := [node] + producedNodes;
      }
    }

    /** One step of somebody else: a finished enqueue, or the exchange of a dequeue. */
    method Meddle(m: Meanwhile)
      requires Valid() && (m.Pushed? ==> m.node !in producedNodes && m.node !in consumedNodes)
      modifies this`produced, this`producedNodes, if m.Pushed? then {m.node} else {}
      ensures Valid() && producedNodes == After(old(producedNodes), [m])
    {
      assert [m][1..] == [];
      match m
      case Pushed(n) =>
        n.next := produced;
        produced, producedNodes := n, [n] + producedNodes;
      case Taken => produced, producedNodes := null, [];
    }

    method MeddleAll(ms: seq<Meanwhile>, ghost node: Node)
      requires Valid() && MayMeddle(producedNodes, consumedNodes, node, ms)
      modifies this`produced, this`producedNodes, PushedBy(ms)
      ensures Valid() && producedNodes == After(old(producedNodes), ms) && node !in producedNodes
      ensures node.next == old(node.next)
    {
      for i := 0 to |ms|
        invariant Valid() && MayMeddle(producedNodes, consumedNodes, node, ms[i..]) && node.next == old(node.next)
        invariant After(producedNodes, ms[i..]) == After(old(producedNodes), ms)
      {
        assert ms[i..][1..] == ms[i + 1..] && ms[i..][0] == ms[i] && [ms[i]][1..] == [];
        assert ms[i].Pushed? ==> ms[i].node in PushedBy(ms);
        Meddle(ms[i]);
      }
    }

    /** The retry loop, with what happens between each load of the head and the compare-and-swap that follows. */
    method EnqueueSignal(node: Node, tries: seq<Try>) returns (ok: bool)
      requires Valid() && MayTry(producedNodes, consumedNodes, node, tries)
      modifies this`produced, this`producedNodes, node, PushedInAll(tries)
      ensures Valid() && (producedNodes, ok) == Attempts(old(producedNodes), node, tries)
    {
      var head := produced;
      for i := 0 to |tries|
        invariant Valid() && MayTry(producedNodes, consumedNodes, node, tries[i..]) && head == produced
        invariant Attempts(producedNodes, node, tries[i..]) == Attempts(old(producedNodes), node, tries)
      {
        ghost var before := producedNodes;
        assert tries[i..][1..] == tries[i + 1..] && tries[i..][0] == tries[i];
        assert PushedBy(tries[i].meanwhile) <= PushedInAll(tries);
        node.next := head;
        MeddleAll(tries[i].meanwhile, node);
        assert head == Head(before) && produced == Head(producedNodes);
        ok := TryPush(node, tries[i].spurious);
        if ok {
          return;
        }
        head := produced;
      }
      ok := false;
    }

    /** The atomic exchange that opens a dequeue. */
    method TakeProduced() returns (head: Node?, ghost taken: seq<Node>)
      requires Valid()
      modifies this`produced, this`producedNodes
      ensures Valid() && producedNodes == [] && taken == old(producedNodes)
      ensures IsList(head, taken)
    {
      head := produced;
      taken := producedNodes;
      produced, producedNodes := null, [];
    }

    /** Walks to the end of the taken list and hangs `consumed` behind it. */
    method PutInFront(head: Node?, ghost taken: seq<Node>)
      requires Valid() && IsList(head, taken) && Distinct(taken)
      requires Apart(taken, consumedNodes) && Apart(producedNodes, taken)
      modifies this`consumed, this`consumedNodes, taken
      ensures Valid()
      ensures consumedNodes == taken + old(consumedNodes)
    {
      if head != null {
        var last := head;
        ghost var i := 0;
        while last.next != null
          invariant 0 <= i < |taken| && taken[i] == last
          invariant last.next == if i + 1 < |taken| then taken[i + 1] else null
          decreases |taken| - i
        {
          last := last.next;
          i := i + 1;
        }
        last.next := consumed;
        consumed := head;
        ghost var all := taken + consumedNodes;
        forall j | 0 <= j < |all| - 1
          ensures all[j].next == all[j + 1]
        {
          if j < i {
            assert taken[j] != last && taken[j].next == taken[j + 1];
          } else if j > i {
            assert all[j] == consumedNodes[j - |taken|];
          }
        }
        consumedNodes := all;
      }
    }

    /** The scan: the last of the smallest, with the node before it. */
    method FindBest() returns (best: Node, bestPrev: Node?, ghost k: nat)
      requires Valid() && consumedNodes != []
      ensures k == Best(Infos(consumedNodes))
      ensures best == consumedNodes[k] && bestPrev == if k == 0 then null else consumedNodes[k - 1]
    {
      ghost var nodes, infos := consumedNodes, Infos(consumedNodes);
      ghost var c := 1;
      k := 0;
      bestPrev := null;
      var prev := consumed;
      best := consumed;
      while prev.next != null
        invariant 0 <= k < c <= |nodes|
        invariant best == nodes[k] && bestPrev == if k == 0 then null else nodes[k - 1]
        invariant prev == nodes[c - 1]
        invariant Best(infos) == BestFrom(infos, k, c)
        decreases |nodes| - c
      {
        var curr := prev.next;
        if curr.info.signo <= best.info.signo {
          bestPrev, best := prev, curr;
          k := c;
        }
        prev := curr;
        c := c + 1;
      }
    }

    method Unlink(best: Node, bestPrev: Node?, ghost k: nat)
      requires Valid() && k < |consumedNodes|
      requires best == consumedNodes[k] && bestPrev == if k == 0 then null else consumedNodes[k - 1]
      modifies this`consumed, this`consumedNodes, consumedNodes
      ensures Valid() && consumedNodes == Without(old(consumedNodes), k)
    {
      ghost var nodes := consumedNodes;
      assert best.next == if k + 1 < |nodes| then nodes[k + 1] else null;
      assert Without(nodes, k) == [] <==> |nodes| == 1;
      if bestPrev == null {
        consumed := best.next;
      } else {
        bestPrev.next := best.next;
      }
      consumedNodes := Without(consumedNodes, k);
    }

    /** Unlinks the last minimum of the consumed list. */
    method RemoveBest() returns (best: Node?)
      requires Valid()
      modifies this`consumed, this`consumedNodes, consumedNodes
      ensures Valid()
      ensures old(consumedNodes) == [] ==> best == null && consumedNodes == []
      ensures old(consumedNodes) != [] ==>
                var k := Best(Infos(old(consumedNodes)));
                best == old(consumedNodes)[k] && consumedNodes == Without(old(consumedNodes), k)
    {
      if consumed == null {
        return null;
      }
      var bestPrev;
      ghost var k;
      best, bestPrev, k := FindBest();
      Unlink(best, bestPrev, k);
    }

    method DequeueSignalUnsafe() returns (best: Node?)
      requires Valid()
      modifies this, producedNodes, consumedNodes
      ensures Valid() && producedNodes == []
      ensures var all := old(producedNodes + consumedNodes);
              if all == [] then best == null && consumedNodes == []
              else var k := Best(Infos(all)); best == all[k] && consumedNodes == Without(all, k)
    {
      var head, taken := TakeProduced();
      PutInFront(head, taken);
      best := RemoveBest();
    }
  }
}
