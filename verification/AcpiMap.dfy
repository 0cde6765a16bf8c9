/** Reference-counted mappings of ACPI memory regions: overlapping and unaligned regions
    share pages, and a page is mapped once and unmapped once for all of them. */
module AcpiMap {
  import opened Align
  import opened Stride

  datatype Call = MapPage(addr: nat) | UnmapPage(addr: nat)

  /** The counts per page, and the calls made to the page-table manager so far. */
  datatype Acpi = Acpi(rcnt: map<nat, nat>, calls: seq<Call>)

  datatype Region = Region(start: nat, size: nat)

  function FirstPage(r: Region, page: nat): nat { AlignDown(r.start, page) }
  function EndPage(r: Region, page: nat): nat { AlignUp(r.start + r.size, page) }

  /** Number of pages of a region. */
  function PageCount(r: Region, page: nat): nat
    requires page > 0
  {
    if EndPage(r, page) < FirstPage(r, page) then 0 else (EndPage(r, page) - FirstPage(r, page)) / page
  }

  predicate Covers(r: Region, page: nat, a: nat)
    requires page > 0
  {
    FirstPage(r, page) <= a < EndPage(r, page) && a % page == 0
  }

  /** Covering is overlap: the page reaches past the region's start and begins before its end. */
  lemma CoversMeans(r: Region, page: nat, a: nat)
    requires page > 0 && a % page == 0
    ensures Covers(r, page, a) <==> a < r.start + r.size && r.start < a + page
  {
    hide AlignUp, AlignDown;
    BelowUp(r.start + r.size, page, a);
    FromDown(r.start, page, a);
  }

  lemma PageEnds(r: Region, page: nat)
    requires page > 0
    ensures FirstPage(r, page) <= EndPage(r, page)
    ensures FirstPage(r, page) == FirstPage(r, page) / page * page
    ensures FirstPage(r, page) / page + PageCount(r, page) == EndPage(r, page) / page
    ensures EndPage(r, page) == EndPage(r, page) / page * page
    ensures EndPage(r, page) == FirstPage(r, page) + PageCount(r, page) * page
  {
    AlignUpLeast(r.start + r.size, page);
    AlignDownGreatest(r.start, page);
    hide AlignUp, AlignDown;
    MultiplesApart(FirstPage(r, page), EndPage(r, page), page);
  }

  /** The pages a region's loop visits are the ones it covers. */
  lemma AmongCovers(r: Region, page: nat, a: nat)
    requires page > 0
    ensures Among(FirstPage(r, page), page, PageCount(r, page), a) <==> Covers(r, page, a)
  {
    PageEnds(r, page);
    hide Among, FirstPage, EndPage, PageCount;
    var q, p := FirstPage(r, page) / page, EndPage(r, page) / page;
    if Covers(r, page, a) {
      MultipleAmong(q, p, page, a);
    }
    if Among(FirstPage(r, page), page, PageCount(r, page), a) {
      AmongMultiple(q, p, page, a);
    }
  }

  // ---- One page ----

  function Get(s: Acpi, a: nat): nat { if a in s.rcnt then s.rcnt[a] else 0 }

  function AcquirePage(s: Acpi, a: nat): Acpi {
    if a in s.rcnt then s.(rcnt := s.rcnt[a := s.rcnt[a] + 1])
    else Acpi(s.rcnt[a := 1], s.calls + [MapPage(a)])
  }

  function ReleasePage(s: Acpi, a: nat): Acpi {
    if a !in s.rcnt then s
    else if s.rcnt[a] <= 1 then Acpi(s.rcnt - {a}, s.calls + [UnmapPage(a)])
    else s.(rcnt := s.rcnt[a := s.rcnt[a] - 1])
  }

  /** The first `n` pages from `base` on. */
  function Acquire(s: Acpi, base: nat, page: nat, n: nat): Acpi {
    if n == 0 then s else AcquirePage(Acquire(s, base, page, n - 1), base + (n - 1) * page)
  }

  function Release(s: Acpi, base: nat, page: nat, n: nat): Acpi {
    if n == 0 then s else ReleasePage(Release(s, base, page, n - 1), base + (n - 1) * page)
  }

  function AfterCall(mapped: set<nat>, c: Call): set<nat> {
    match c
    case MapPage(a) => mapped + {a}
    case UnmapPage(a) => mapped - {a}
  }

  /** The call changes something: it maps an unmapped page or unmaps a mapped one. */
  predicate Changes(mapped: set<nat>, c: Call) {
    match c
    case MapPage(a) => a !in mapped
    case UnmapPage(a) => a in mapped
  }

  /** Pages the manager has mapped and not unmapped since. */
  function Mapped(calls: seq<Call>): set<nat> {
    if calls == [] then {} else AfterCall(Mapped(calls[..|calls| - 1]), calls[|calls| - 1])
  }

  /** Every call changes something. */
  ghost predicate Effective(calls: seq<Call>) {
    calls == [] ||
    (Effective(calls[..|calls| - 1]) && Changes(Mapped(calls[..|calls| - 1]), calls[|calls| - 1]))
  }

  /** The counted pages are the mapped ones, and no stored count is zero. */
  ghost predicate Consistent(s: Acpi) {
    && Effective(s.calls) && s.rcnt.Keys == Mapped(s.calls)
    && forall a :: a in s.rcnt ==> s.rcnt[a] > 0
  }

  lemma CallMore(calls: seq<Call>, c: Call)
    ensures Mapped(calls + [c]) == AfterCall(Mapped(calls), c)
    ensures Effective(calls + [c]) <==> Effective(calls) && Changes(Mapped(calls), c)
  {
    assert (calls + [c])[..|calls + [c]| - 1] == calls;
  }

  lemma AcquirePageKeeps(s: Acpi, a: nat)
    requires Consistent(s)
    ensures Consistent(AcquirePage(s, a))
    ensures forall x :: Get(AcquirePage(s, a), x) == Get(s, x) + if x == a then 1 else 0
    ensures AcquirePage(s, a).calls == s.calls + if Get(s, a) == 0 then [MapPage(a)] else []
  {
    hide Mapped, Effective;
    CallMore(s.calls, MapPage(a));
  }

  lemma ReleasePageKeeps(s: Acpi, a: nat)
    requires Consistent(s) && Get(s, a) > 0
    ensures Consistent(ReleasePage(s, a))
    ensures forall x :: Get(ReleasePage(s, a), x) == Get(s, x) - if x == a then 1 else 0
    ensures ReleasePage(s, a).calls == s.calls + if Get(s, a) == 1 then [UnmapPage(a)] else []
  {
    hide Mapped, Effective;
    CallMore(s.calls, UnmapPage(a));
  }

  // ---- One region ----

  lemma AmongStep(base: nat, page: nat, n: nat, a: nat)
    requires page > 0 && n > 0
    ensures Among(base, page, n, a) <==> Among(base, page, n - 1, a) || a == base + (n - 1) * page
    ensures !Among(base, page, n - 1, base + (n - 1) * page)
  {
    if Among(base, page, n, a) {
      var j: nat :| j < n && a == base + j * page;
    }
    forall j: nat | j < n - 1 ensures base + j * page != base + (n - 1) * page {
      MulGap(j, n - 1, page);
    }
  }

  /** Mapping a region adds one to the count of exactly its pages. */
  lemma {:induction false} AcquireCounts(s: Acpi, base: nat, page: nat, n: nat)
    requires Consistent(s) && page > 0
    ensures Consistent(Acquire(s, base, page, n))
    ensures forall a: nat ::
              Get(Acquire(s, base, page, n), a) == Get(s, a) + if Among(base, page, n, a) then 1 else 0
  {
    hide Consistent, AcquirePage, Get, Among;
    if n > 0 {
      AcquireCounts(s, base, page, n - 1);
      var s1, p := Acquire(s, base, page, n - 1), base + (n - 1) * page;
      AcquirePageKeeps(s1, p);
      forall a: nat ensures Get(Acquire(s, base, page, n), a) == Get(s, a) + if Among(base, page, n, a) then 1 else 0 {
        AmongStep(base, page, n, a);
      }
    } else {
      forall a: nat ensures !Among(base, page, 0, a) { NoneAmong(base, page, a); }
    }
  }

  lemma NoneAmong(base: nat, page: nat, a: nat)
    ensures !Among(base, page, 0, a)
  {}

  /** Unmapping a region takes one from the count of exactly its pages. */
  lemma {:induction false} ReleaseCounts(s: Acpi, base: nat, page: nat, n: nat)
    requires Consistent(s) && page > 0 && forall a: nat :: Among(base, page, n, a) ==> Get(s, a) > 0
    ensures Consistent(Release(s, base, page, n))
    ensures forall a: nat ::
              Get(Release(s, base, page, n), a) == Get(s, a) - if Among(base, page, n, a) then 1 else 0
  {
    hide Consistent, ReleasePage, Get, Among;
    if n > 0 {
      forall a: nat | Among(base, page, n - 1, a) ensures Get(s, a) > 0 { AmongStep(base, page, n, a); }
      ReleaseCounts(s, base, page, n - 1);
      var s1, p := Release(s, base, page, n - 1), base + (n - 1) * page;
      AmongStep(base, page, n, p);
      assert Among(base, page, n, p);
      ReleasePageKeeps(s1, p);
      forall a: nat ensures Get(Release(s, base, page, n), a) == Get(s, a) - if Among(base, page, n, a) then 1 else 0 {
        AmongStep(base, page, n, a);
      }
    } else {
      forall a: nat ensures !Among(base, page, 0, a) { NoneAmong(base, page, a); }
    }
  }

  // ---- Runs ----

  datatype Op = Map(r: Region) | Unmap(i: nat)

  /** The allocation state together with the regions that are mapped at the moment. */
  datatype Config = Config(s: Acpi, live: seq<Region>)

  function MapRegion(s: Acpi, r: Region, page: nat): Acpi
    requires page > 0
  {
    Acquire(s, FirstPage(r, page), page, PageCount(r, page))
  }

  function UnmapRegion(s: Acpi, r: Region, page: nat): Acpi
    requires page > 0
  {
    Release(s, FirstPage(r, page), page, PageCount(r, page))
  }

  ghost predicate Step(c: Config, op: Op, c': Config, page: nat)
    requires page > 0
  {
    match op
    case Map(r) => c' == Config(MapRegion(c.s, r, page), c.live + [r])
    case Unmap(i) => i < |c.live| && c' == Config(UnmapRegion(c.s, c.live[i], page), c.live[..i] + c.live[i + 1..])
  }

  /** How many live regions cover the page at `a`. */
  function Users(live: seq<Region>, page: nat, a: nat): nat
    requires page > 0
  {
    if live == [] then 0
    else Users(live[..|live| - 1], page, a) + if Covers(live[|live| - 1], page, a) then 1 else 0
  }

  lemma {:induction false} UsersRemove(live: seq<Region>, page: nat, a: nat, i: nat)
    requires page > 0 && i < |live|
    ensures Users(live[..i] + live[i + 1..], page, a) ==
              Users(live, page, a) - if Covers(live[i], page, a) then 1 else 0
    decreases |live|
  {
    var n := |live| - 1;
    var rest := live[..i] + live[i + 1..];
    if i == n {
      assert rest == live[..n];
    } else {
      var init := live[..n];
      UsersRemove(init, page, a, i);
      assert rest[..|rest| - 1] == init[..i] + init[i + 1..] && rest[|rest| - 1] == live[n];
    }
  }

  /** The counts are the numbers of live regions per page. */
  ghost predicate Counted(c: Config, page: nat)
    requires page > 0
  {
    && Consistent(c.s)
    && forall a: nat :: Get(c.s, a) == Users(c.live, page, a)
  }

  lemma StepCounted(c: Config, op: Op, c': Config, page: nat)
    requires page > 0 && Counted(c, page) && Step(c, op, c', page)
    ensures Counted(c', page)
  {
    hide Consistent, Get, Among, Covers, Acquire, Release, FirstPage, PageCount;
    match op
    case Map(r) =>
      AcquireCounts(c.s, FirstPage(r, page), page, PageCount(r, page));
      forall a: nat ensures Get(c'.s, a) == Users(c'.live, page, a) {
        AmongCovers(r, page, a);
        assert c'.live[..|c'.live| - 1] == c.live;
      }
    case Unmap(i) =>
      var r := c.live[i];
      forall a: nat ensures Among(FirstPage(r, page), page, PageCount(r, page), a) ==> Get(c.s, a) > 0 {
        AmongCovers(r, page, a);
        UsersRemove(c.live, page, a, i);
      }
      ReleaseCounts(c.s, FirstPage(r, page), page, PageCount(r, page));
      forall a: nat ensures Get(c'.s, a) == Users(c'.live, page, a) {
        AmongCovers(r, page, a);
        UsersRemove(c.live, page, a, i);
      }
  }

  ghost predicate Run(cs: seq<Config>, ops: seq<Op>, page: nat)
    requires page > 0
  {
    && |cs| == |ops| + 1 && cs[0] == Config(Acpi(map[], []), [])
    && forall k {:trigger ops[k]} :: 0 <= k < |ops| ==> Step(cs[k], ops[k], cs[k + 1], page)
  }

  /** In every configuration of every run, a page's count is the number of live regions
      that cover it, the page is mapped exactly while that number is positive, and the
      page-table manager is called only on changes between none and one. */
  lemma {:induction false} RunCounted(cs: seq<Config>, ops: seq<Op>, page: nat, k: nat)
    requires page > 0 && Run(cs, ops, page) && k <= |ops|
    ensures Counted(cs[k], page)
    ensures forall a: nat :: a in Mapped(cs[k].s.calls) <==> Users(cs[k].live, page, a) > 0
    decreases k
  {
    hide Step, Users, Effective;
    if k > 0 {
      RunCounted(cs, ops, page, k - 1);
      assert Step(cs[k - 1], ops[k - 1], cs[k - 1 + 1], page);
      StepCounted(cs[k - 1], ops[k - 1], cs[k], page);
    } else {
      StartCounted(page);
    }
    forall a: nat ensures a in Mapped(cs[k].s.calls) <==> Users(cs[k].live, page, a) > 0 {
      assert Get(cs[k].s, a) == Users(cs[k].live, page, a);
    }
  }

  lemma StartCounted(page: nat)
    requires page > 0
    ensures Counted(Config(Acpi(map[], []), []), page)
  {}

  // ---- The handler ----

  class Handler {
    var rcnt: map<nat, nat>
    var calls: seq<Call>
    const page: nat

    constructor (page: nat)
      ensures State() == Acpi(map[], []) && this.page == page
    {
      rcnt, calls, this.page := map[], [], page;
    }

    function State(): Acpi
      reads this
    {
      Acpi(rcnt, calls)
    }

    method MapPhysicalRegion(r: Region)
      requires page > 0
      modifies this
      ensures State() == MapRegion(old(State()), r, page)
    {
      hide Acquire, PageCount;
      var addr: nat, end: nat := FirstPage(r, page), EndPage(r, page);
      ghost var s, n := State(), 0;
      PageEnds(r, page);
      AcquireNone(s, addr, page);
      while addr < end
        invariant 0 <= n <= PageCount(r, page) && addr == FirstPage(r, page) + n * page
        invariant State() == Acquire(s, FirstPage(r, page), page, n)
        decreases end - addr
      {
        PageLeft(r, page, n);
        AcquireOne(s, FirstPage(r, page), page, n);
        if addr in rcnt {
          rcnt := rcnt[addr := rcnt[addr] + 1];
        } else {
          rcnt := rcnt[addr := 1];
          calls := calls + [MapPage(addr)];
        }
        addr, n := addr + page, n + 1;
      }
      PageLeft(r, page, n);
    }

    method UnmapPhysicalRegion(r: Region)
      requires page > 0
      modifies this
      ensures State() == UnmapRegion(old(State()), r, page)
    {
      hide Release, PageCount;
      var addr: nat, end: nat := FirstPage(r, page), EndPage(r, page);
      ghost var s, n := State(), 0;
      PageEnds(r, page);
      ReleaseNone(s, addr, page);
      while addr < end
        invariant 0 <= n <= PageCount(r, page) && addr == FirstPage(r, page) + n * page
        invariant State() == Release(s, FirstPage(r, page), page, n)
        decreases end - addr
      {
        PageLeft(r, page, n);
        ReleaseOne(s, FirstPage(r, page), page, n);
        if addr in rcnt {
          if rcnt[addr] <= 1 {
            rcnt := rcnt - {addr};
            calls := calls + [UnmapPage(addr)];
          } else {
            rcnt := rcnt[addr := rcnt[addr] - 1];
          }
        }
        addr, n := addr + page, n + 1;
      }
      PageLeft(r, page, n);
    }
  }

  lemma AcquireNone(s: Acpi, base: nat, page: nat)
    ensures Acquire(s, base, page, 0) == s
  {}

  lemma ReleaseNone(s: Acpi, base: nat, page: nat)
    ensures Release(s, base, page, 0) == s
  {}

  lemma AcquireOne(s: Acpi, base: nat, page: nat, n: nat)
    ensures Acquire(s, base, page, n + 1) == AcquirePage(Acquire(s, base, page, n), base + n * page)
  {}

  lemma ReleaseOne(s: Acpi, base: nat, page: nat, n: nat)
    ensures Release(s, base, page, n + 1) == ReleasePage(Release(s, base, page, n), base + n * page)
  {}

  lemma PageLeft(r: Region, page: nat, n: nat)
    requires page > 0 && n <= PageCount(r, page)
    ensures FirstPage(r, page) + n * page < EndPage(r, page) <==> n < PageCount(r, page)
    ensures (n + 1) * page == n * page + page
  {
    PageEnds(r, page);
    MulGap(n, PageCount(r, page), page);
  }
}
