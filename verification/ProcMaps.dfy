/** Splitting one line of the host's memory map at the points where the guest executable flag changes. */
module ProcMaps {
  import opened Pages
  import opened Shadow

  datatype Chunk = Chunk(lo: nat, hi: nat, x: bool)

  ghost predicate Uniform(exec: set<nat>, c: Chunk) {
    forall p: nat | c.lo / PAGE <= p && PAGE * p < c.hi :: p in exec <==> c.x
  }

  /** Neighbouring chunks meet on a page boundary and differ in the flag. */
  predicate Meets(a: Chunk, b: Chunk) {
    a.hi == b.lo && a.x != b.x && Aligned(b.lo)
  }

  /** The chunks partition [start, end) into runs of pages of one flag, each as long as possible. */
  ghost predicate Splits(cs: seq<Chunk>, exec: set<nat>, start: nat, end: nat) {
    && 0 < |cs| && cs[0].lo == start && cs[|cs| - 1].hi == end
    && (forall i | 0 <= i < |cs| :: cs[i].lo < cs[i].hi && Uniform(exec, cs[i]))
    && (forall i | 0 < i < |cs| :: Meets(cs[i - 1], cs[i]))
  }

  /**
   A line of one flag is kept as it is; a line that has to be split ends at a page boundary. For page-aligned
   lines that is the line's own end.
   */
  method SplitLine(shadow: GuestMapShadow, start: nat, end: nat) returns (cs: seq<Chunk>)
    requires shadow.shadow.Length == SHADOW_SIZE
    ensures start >= end ==> cs == []
    ensures start < end ==> Splits(cs, shadow.Exec(), start, if |cs| == 1 then end else AlignUp(end))
    ensures start < end && Aligned(end) ==> Splits(cs, shadow.Exec(), start, end)
  {
    cs := [];
    var at := start;
    AlignFacts(end);
    while at < end
      invariant if cs == [] then at == start else start < end
      invariant cs != [] ==> Splits(cs, shadow.Exec(), start, at)
      invariant cs != [] ==> Aligned(at) && at <= AlignUp(end)
      invariant cs != [] && at < end ==> (at / PAGE in shadow.Exec() <==> !cs[|cs| - 1].x)
      invariant |cs| == 1 ==> at < end
    {
      assert at + (end - at) == end;
      NextPage(at, end);
      var isExec, size := shadow.GetExecutableRegionSize(at, end - at);
      RegionUniform(shadow.Exec(), at, size, isExec);
      if at == start && at + size >= end {
        cs := [Chunk(at, end, isExec)];
        return;
      }
      SplitAppend(cs, shadow.Exec(), start, Chunk(at, at + size, isExec));
      cs := cs + [Chunk(at, at + size, isExec)];
      at := at + size;
    }
    if start < end {
      AlignUpLeast(end, at);
    }
  }

  lemma NextPage(a: nat, b: nat)
    requires a < b
    ensures AlignDown(a) + PAGE <= AlignUp(b)
  {
    AlignFacts(a);
    AlignFacts(b);
    assert AlignDown(a) == PAGE * (AlignDown(a) / PAGE);
    assert AlignUp(b) == PAGE * (AlignUp(b) / PAGE);
  }

  lemma AlignUpLeast(a: nat, b: nat)
    requires Aligned(b) && a <= b
    ensures AlignUp(a) <= b
  {
    AlignFacts(a);
    assert b == PAGE * (b / PAGE);
    assert AlignUp(a) == PAGE * (AlignUp(a) / PAGE);
  }

  lemma SplitAppend(cs: seq<Chunk>, exec: set<nat>, start: nat, c: Chunk)
    requires c.lo < c.hi && Uniform(exec, c)
    requires cs == [] ==> c.lo == start
    requires cs != [] ==> Splits(cs, exec, start, c.lo) && Aligned(c.lo) && c.x != cs[|cs| - 1].x
    ensures Splits(cs + [c], exec, start, c.hi)
  {
    var ds := cs + [c];
    forall i | 0 < i < |ds| ensures Meets(ds[i - 1], ds[i]) {
      if i < |cs| {
        assert Meets(cs[i - 1], cs[i]);
      }
    }
  }

  lemma RegionUniform(exec: set<nat>, at: nat, size: nat, x: bool)
    requires Aligned(at + size)
    requires forall p: nat | at / PAGE <= p < (at + size) / PAGE :: p in exec <==> x
    ensures forall hi: nat | hi <= at + size :: Uniform(exec, Chunk(at, hi, x))
  {
  }

  /** The chunks are determined by the shadow: nothing else is a partition into such runs. */
  lemma {:induction false} SplitUnique(a: seq<Chunk>, b: seq<Chunk>, exec: set<nat>, start: nat, end: nat)
    requires Aligned(start) && Aligned(end) && start < end
    requires Splits(a, exec, start, end) && Splits(b, exec, start, end)
    ensures a == b
    decreases |a|
  {
    SplitBounds(a, exec, start, end, 0);
    SplitBounds(b, exec, start, end, 0);
    FirstNotLonger(a, b, exec, start, end);
    FirstNotLonger(b, a, exec, start, end);
    assert Uniform(exec, a[0]) && Uniform(exec, b[0]) && PAGE * (start / PAGE) == start;
    assert start / PAGE in exec <==> a[0].x;
    assert |a| == 1 <==> |b| == 1;
    if |a| > 1 {
      assert Meets(a[0], a[1]);
      SplitTail(a, exec, start, end);
      SplitTail(b, exec, start, end);
      SplitUnique(a[1..], b[1..], exec, a[0].hi, end);
      assert a == [a[0]] + a[1..] && b == [b[0]] + b[1..];
    }
  }

  lemma SplitTail(a: seq<Chunk>, exec: set<nat>, start: nat, end: nat)
    requires Splits(a, exec, start, end) && |a| > 1
    ensures Splits(a[1..], exec, a[0].hi, end)
  {
    forall i | 0 < i < |a[1..]| ensures Meets(a[1..][i - 1], a[1..][i]) {
      assert Meets(a[i], a[i + 1]);
    }
    assert Meets(a[0], a[1]);
  }

  lemma {:induction false} SplitBounds(a: seq<Chunk>, exec: set<nat>, start: nat, end: nat, k: nat)
    requires Splits(a, exec, start, end) && k < |a|
    ensures start <= a[k].lo < a[k].hi <= end
    ensures k < |a| - 1 ==> a[k].hi < end
    decreases |a|
  {
    if |a| > 1 {
      SplitTail(a, exec, start, end);
      SplitBounds(a[1..], exec, a[0].hi, end, if k == 0 then 0 else k - 1);
    }
  }

  lemma FirstNotLonger(a: seq<Chunk>, b: seq<Chunk>, exec: set<nat>, start: nat, end: nat)
    requires Aligned(start) && Aligned(end)
    requires Splits(a, exec, start, end) && Splits(b, exec, start, end)
    ensures b[0].hi <= a[0].hi
  {
    SplitBounds(b, exec, start, end, 0);
    if |a| > 1 {
      assert Meets(a[0], a[1]) && Uniform(exec, a[0]) && Uniform(exec, a[1]) && Uniform(exec, b[0]);
      var p, q := start / PAGE, a[1].lo / PAGE;
      assert PAGE * p == start && PAGE * q == a[1].lo;
      assert p in exec <==> q !in exec;
    }
  }
}
