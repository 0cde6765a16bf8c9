/** Loops over the pages of a byte range, from the rounded-down start to the rounded-up end. */
module Stride {
  import opened Align

  lemma BelowUp(end: nat, page: nat, a: nat)
    requires page > 0 && a % page == 0
    ensures a < AlignUp(end, page) <==> a < end
  {
    AlignUpLeast(end, page);
    hide AlignUp;
    assert a >= end ==> Aligned(a, page);
  }

  lemma FromDown(start: nat, page: nat, a: nat)
    requires page > 0 && a % page == 0
    ensures AlignDown(start, page) <= a <==> start < a + page
  {
    AlignDownGreatest(start, page);
    hide AlignDown;
    if AlignDown(start, page) > a {
      NextMultiple(AlignDown(start, page), a, page);
    }
  }

  /** `base`, `base + page`, ...: `n` addresses in all. */
  predicate Among(base: nat, page: nat, n: nat, a: nat) {
    exists j: nat :: j < n && a == base + j * page
  }

  lemma MultipleAmong(q: nat, p: nat, page: nat, a: nat)
    requires page > 0 && a % page == 0 && q * page <= a < p * page
    ensures q <= p && Among(q * page, page, p - q, a)
  {
    var k := a / page;
    assert a == k * page;
    MulGap(k, q, page);
    MulGap(p, k, page);
    assert k - q < p - q && a == q * page + (k - q) * page;
  }

  lemma AmongMultiple(q: nat, p: nat, page: nat, a: nat)
    requires page > 0 && q <= p && Among(q * page, page, p - q, a)
    ensures a % page == 0 && q * page <= a < p * page
  {
    var j: nat :| j < p - q && a == q * page + j * page;
    assert a == (q + j) * page;
    MulMod(q + j, page);
    MulGap(q + j, p, page);
  }

  lemma MultiplesApart(x: nat, y: nat, page: nat)
    requires page > 0 && x <= y && x % page == 0 && y % page == 0
    ensures x == x / page * page && y == y / page * page
    ensures x / page + (y - x) / page == y / page && y == x + (y - x) / page * page
  {
    var q, p := x / page, y / page;
    assert x == q * page && y == p * page;
    MulGap(p, q, page);
    DivUnique(y - x, page, p - q, 0);
  }

  /** The pages such a loop visits are those that begin before the end of the range and
      reach past its start; an empty range with an unaligned start has one. */
  lemma StrideCovers(start: nat, end: nat, page: nat, a: nat)
    requires page > 0 && start <= end
    ensures AlignDown(start, page) <= AlignUp(end, page)
    ensures Among(AlignDown(start, page), page, (AlignUp(end, page) - AlignDown(start, page)) / page, a)
            <==> a % page == 0 && a < end && start < a + page
  {
    AlignUpLeast(end, page);
    AlignDownGreatest(start, page);
    hide AlignUp, AlignDown, Among;
    var lo, hi := AlignDown(start, page), AlignUp(end, page);
    MultiplesApart(lo, hi, page);
    if a % page == 0 {
      BelowUp(end, page, a);
      FromDown(start, page, a);
      if lo <= a < hi { MultipleAmong(lo / page, hi / page, page, a); }
    }
    if Among(lo, page, (hi - lo) / page, a) { AmongMultiple(lo / page, hi / page, page, a); }
  }
}
