/** Guest pages: addresses are natural numbers, a page is named by its number. */
module Pages {

  const PAGE: nat := 4096

  function AlignDown(a: nat): nat {
    a - a % PAGE
  }

  function AlignUp(a: nat): nat {
    AlignDown(a + PAGE - 1)
  }

  predicate Aligned(a: nat) {
    a % PAGE == 0
  }

  predicate InPages(p: nat, start: nat, size: nat) {
    AlignDown(start) / PAGE <= p < AlignUp(start + size) / PAGE
  }

  /** The pages a byte range rounded outwards to page boundaries is made of. */
  function PagesOf(start: nat, size: nat): set<nat> {
    set p | 0 <= p < AlignUp(start + size) / PAGE && InPages(p, start, size)
  }

  /** Rounding outwards keeps exactly the pages that share a byte with a non-empty range. */
  lemma PagesTouched(start: nat, size: nat, p: nat)
    requires 0 < size
    ensures p in PagesOf(start, size) <==> p * PAGE < start + size && start < (p + 1) * PAGE
  {
    var last := start + size;
    assert AlignUp(last) / PAGE == (last + PAGE - 1) / PAGE;
    assert p < (last + PAGE - 1) / PAGE <==> p * PAGE < last;
    assert AlignDown(start) / PAGE == start / PAGE;
    assert start / PAGE <= p <==> start < (p + 1) * PAGE;
  }

  lemma AlignFacts(a: nat)
    ensures Aligned(AlignDown(a)) && AlignDown(a) <= a < AlignDown(a) + PAGE
    ensures Aligned(AlignUp(a)) && a <= AlignUp(a) < a + PAGE
    ensures Aligned(a) ==> AlignDown(a) == a == AlignUp(a)
    ensures AlignDown(a) / PAGE == a / PAGE
  {
  }

  lemma AlignUpShift(a: nat, b: nat)
    requires Aligned(a)
    ensures AlignUp(a + b) == a + AlignUp(b)
  {
    var n := b + PAGE - 1;
    assert a == a / PAGE * PAGE;
    assert (a / PAGE * PAGE + n) % PAGE == n % PAGE;
  }

  lemma AlignMonotone(a: nat, b: nat)
    requires a <= b
    ensures AlignDown(a) <= AlignDown(b) && AlignUp(a) <= AlignUp(b)
  {
    assert AlignDown(a) == PAGE * (a / PAGE) && AlignDown(b) == PAGE * (b / PAGE);
    var c, d := a + PAGE - 1, b + PAGE - 1;
    assert AlignDown(c) == PAGE * (c / PAGE) && AlignDown(d) == PAGE * (d / PAGE);
  }

  lemma AlignedDiff(a: nat, b: nat)
    requires Aligned(a) && Aligned(b) && b <= a
    ensures Aligned(a - b) && AlignUp(a - b) == a - b
  {
    assert a - b == PAGE * (a / PAGE - b / PAGE);
    AlignFacts(a - b);
  }

  lemma AlignedSum(a: nat, b: nat)
    requires Aligned(a) && Aligned(b)
    ensures Aligned(a + b) && AlignUp(a + b) == a + b
  {
    assert a + b == PAGE * (a / PAGE + b / PAGE);
    AlignFacts(a + b);
  }
}
