/** Ranges of pages, lookups of physical addresses, and frames handed back. */
module PageRange {
  import opened Align
  import opened Bits
  import opened PageCfg
  import opened PageTree
  import opened PageMap
  import opened Stride
  import opened Wrappers

  /** Number of pages the tables can tell apart. */
  function Pages(cfg: RvmCfg): nat
    requires cfg.Valid()
  {
    Pow2(cfg.vaBits - cfg.pshift)
  }

  lemma ModDistinct(x: nat, i: nat, j: nat, m: nat)
    requires m > 0 && i < m && j < m && (x + i) % m == (x + j) % m
    ensures i == j
  {
    var a, b := (x + i) / m, (x + j) / m;
    assert x + i == a * m + (x + i) % m && x + j == b * m + (x + j) % m;
    MulGap(a, b, m);
    MulGap(b, a, m);
  }

  /** Consecutive pages have consecutive page numbers, modulo the address width. */
  lemma VpnStep(cfg: RvmCfg, va: nat, j: nat)
    requires cfg.Valid() && va % cfg.PageSize() == 0
    ensures Vpn(cfg, va + j * cfg.PageSize()) == (va / cfg.PageSize() + j) % Pages(cfg)
  {
    hide Pow2;
    var p := cfg.PageSize();
    assert va == va / p * p;
    assert va + j * p == (va / p + j) * p;
    MulMod(va / p + j, p);
  }

  lemma PagesDistinct(cfg: RvmCfg, va: nat, i: nat, j: nat)
    requires cfg.Valid() && va % cfg.PageSize() == 0 && i < Pages(cfg) && j < Pages(cfg)
    requires Vpn(cfg, va + i * cfg.PageSize()) == Vpn(cfg, va + j * cfg.PageSize())
    ensures i == j
  {
    hide Pow2;
    VpnStep(cfg, va, i);
    VpnStep(cfg, va, j);
    ModDistinct(va / cfg.PageSize(), i, j, Pages(cfg));
  }

  /** `map_page` on the whole space, in terms of page numbers. */
  lemma MapPage(cfg: RvmCfg, s: Space, root: nat, va: nat, entry: nat, va': nat)
    requires cfg.Valid() && 0 < cfg.Levels() && Tree(cfg, s.mem, root, 0) && PoolOk(cfg, s)
    ensures var (s', ok) := MapF(cfg, s, root, 0, va, entry);
            && Tree(cfg, s'.mem, root, 0) && PoolOk(cfg, s')
            && Lookup(cfg, s'.mem, root, 0, va') ==
                 if ok && Vpn(cfg, va) == Vpn(cfg, va') then entry else Lookup(cfg, s.mem, root, 0, va')
  {
    hide MapF, Lookup, Vpn, Tree, PoolOk, Index, EntCnt;
    MapRefines(cfg, s, root, 0, va, entry);
    SamePage(cfg, va, va');
  }

  // ---- map_range ----

  /** Maps `n` pages one after the other and stops at the first failure. */
  function MapPages(cfg: RvmCfg, s: Space, root: nat, va: nat, pa: nat, flags: nat, n: nat): (Space, bool)
    requires cfg.Valid() && 0 < cfg.Levels()
  {
    if n == 0 then (s, true)
    else
      var (s1, ok) := MapPages(cfg, s, root, va, pa, flags, n - 1);
      if !ok then (s1, false)
      else MapF(cfg, s1, root, 0, va + (n - 1) * cfg.PageSize(), Or(pa + (n - 1) * cfg.PageSize(), flags))
  }

  /** `va` lies on one of the `n` pages that start at `base`. */
  ghost predicate OnPages(cfg: RvmCfg, base: nat, n: nat, va: nat)
    requires cfg.Valid()
  {
    exists j: nat :: j < n && Vpn(cfg, base + j * cfg.PageSize()) == Vpn(cfg, va)
  }

  lemma {:induction false} MapPagesTree(cfg: RvmCfg, s: Space, root: nat, va: nat, pa: nat, flags: nat, n: nat)
    requires cfg.Valid() && 0 < cfg.Levels() && Tree(cfg, s.mem, root, 0) && PoolOk(cfg, s)
    ensures var s' := MapPages(cfg, s, root, va, pa, flags, n).0;
            Tree(cfg, s'.mem, root, 0) && PoolOk(cfg, s')
  {
    hide MapF, Or, Tree, PoolOk, Lookup, Vpn;
    if n > 0 {
      MapPagesTree(cfg, s, root, va, pa, flags, n - 1);
      var (s1, ok) := MapPages(cfg, s, root, va, pa, flags, n - 1);
      if ok {
        MapPage(cfg, s1, root, va + (n - 1) * cfg.PageSize(), Or(pa + (n - 1) * cfg.PageSize(), flags), 0);
      }
    }
  }

  /** A map of a range changes no page outside the range, whether it succeeds or not. */
  lemma {:induction false} MapPagesOutside(cfg: RvmCfg, s: Space, root: nat, va: nat, pa: nat, flags: nat, n: nat,
                                           va': nat)
    requires cfg.Valid() && 0 < cfg.Levels() && Tree(cfg, s.mem, root, 0) && PoolOk(cfg, s)
    requires !OnPages(cfg, va, n, va')
    ensures Lookup(cfg, MapPages(cfg, s, root, va, pa, flags, n).0.mem, root, 0, va') ==
              Lookup(cfg, s.mem, root, 0, va')
  {
    hide MapF, Or, Lookup, Vpn, Tree, PoolOk;
    if n > 0 {
      assert !OnPages(cfg, va, n - 1, va');
      MapPagesOutside(cfg, s, root, va, pa, flags, n - 1, va');
      MapPagesTree(cfg, s, root, va, pa, flags, n - 1);
      var (s1, ok) := MapPages(cfg, s, root, va, pa, flags, n - 1);
      if ok {
        var v := va + (n - 1) * cfg.PageSize();
        MapPage(cfg, s1, root, v, Or(pa + (n - 1) * cfg.PageSize(), flags), va');
      }
    }
  }

  /** A successful map of a range gives page `j` the physical page `j` and the flags. */
  lemma {:induction false} MapPagesInside(cfg: RvmCfg, s: Space, root: nat, va: nat, pa: nat, flags: nat, n: nat,
                                          j: nat)
    requires cfg.Valid() && 0 < cfg.Levels() && Tree(cfg, s.mem, root, 0) && PoolOk(cfg, s)
    requires va % cfg.PageSize() == 0 && j < n <= Pages(cfg)
    requires MapPages(cfg, s, root, va, pa, flags, n).1
    ensures Lookup(cfg, MapPages(cfg, s, root, va, pa, flags, n).0.mem, root, 0, va + j * cfg.PageSize()) ==
              Or(pa + j * cfg.PageSize(), flags)
  {
    hide MapF, Or, Lookup, Vpn, Pages, Pow2, Tree, PoolOk;
    var (s1, ok) := MapPages(cfg, s, root, va, pa, flags, n - 1);
    var v, v' := va + (n - 1) * cfg.PageSize(), va + j * cfg.PageSize();
    MapPagesTree(cfg, s, root, va, pa, flags, n - 1);
    MapPage(cfg, s1, root, v, Or(pa + (n - 1) * cfg.PageSize(), flags), v');
    if j < n - 1 {
      MapPagesInside(cfg, s, root, va, pa, flags, n - 1, j);
      if Vpn(cfg, v) == Vpn(cfg, v') { PagesDistinct(cfg, va, n - 1, j); }
    }
  }

  // ---- Unmapping and the frame pool ----

  /** One `unmap_page`: freed tables go back to the pool. */
  function UnmapPage(cfg: RvmCfg, s: Space, root: nat, va: nat): Space
    requires cfg.Valid() && 0 < cfg.Levels()
  {
    var (mem, freed, _) := UnmapF(cfg, s.mem, root, 0, va);
    Space(mem, s.pool + freed)
  }

  lemma UnmapPageKeeps(cfg: RvmCfg, s: Space, root: nat, va: nat)
    requires cfg.Valid() && 0 < cfg.Levels() && Tree(cfg, s.mem, root, 0) && PoolOk(cfg, s)
    ensures var s' := UnmapPage(cfg, s, root, va);
            && Tree(cfg, s'.mem, root, 0) && PoolOk(cfg, s')
            && forall va': nat {:trigger Lookup(cfg, s'.mem, root, 0, va')} ::
                 Lookup(cfg, s'.mem, root, 0, va') ==
                   if SameFrom(cfg, 0, va, va') then 0 else Lookup(cfg, s.mem, root, 0, va')
  {
    hide UnmapF, Index, EntCnt;
    UnmapRefines(cfg, s.mem, root, 0, va);
    var (mem, freed, empty) := UnmapF(cfg, s.mem, root, 0, va);
    var pool := s.pool + freed;
    ReachExists(cfg, s.mem, root, 0);
    SubInReach(cfg, s.mem, root, 0, Index(cfg, 0, va));
    forall i | 0 <= i < |pool| ensures pool[i] !in mem && pool[i] % cfg.PageSize() == 0 {
      if i < |s.pool| {
        assert pool[i] == s.pool[i];
      } else {
        assert pool[i] in Elems(freed);
        assert TableOk(cfg, s.mem, pool[i]);
      }
    }
    forall i, j | 0 <= i < j < |pool| ensures pool[i] != pool[j] {
      if i < |s.pool| <= j { assert pool[j] in Elems(freed); assert pool[i] == s.pool[i]; }
      else if j < |s.pool| { assert s.pool[i] != s.pool[j]; }
      else { assert freed[i - |s.pool|] != freed[j - |s.pool|]; }
    }
  }

  function UnmapPages(cfg: RvmCfg, s: Space, root: nat, va: nat, n: nat): Space
    requires cfg.Valid() && 0 < cfg.Levels()
  {
    if n == 0 then s
    else UnmapPage(cfg, UnmapPages(cfg, s, root, va, n - 1), root, va + (n - 1) * cfg.PageSize())
  }

  /** Unmapping a range clears exactly the pages of the range. */
  lemma {:induction false} UnmapPagesExact(cfg: RvmCfg, s: Space, root: nat, va: nat, n: nat)
    requires cfg.Valid() && 0 < cfg.Levels() && Tree(cfg, s.mem, root, 0) && PoolOk(cfg, s)
    ensures var s' := UnmapPages(cfg, s, root, va, n);
            && Tree(cfg, s'.mem, root, 0) && PoolOk(cfg, s')
            && forall va': nat {:trigger Lookup(cfg, s'.mem, root, 0, va')} ::
                 Lookup(cfg, s'.mem, root, 0, va') ==
                   if OnPages(cfg, va, n, va') then 0 else Lookup(cfg, s.mem, root, 0, va')
  {
    hide UnmapPage, Lookup, Vpn;
    if n > 0 {
      UnmapPagesExact(cfg, s, root, va, n - 1);
      var s1 := UnmapPages(cfg, s, root, va, n - 1);
      var v := va + (n - 1) * cfg.PageSize();
      UnmapPageKeeps(cfg, s1, root, v);
      var s' := UnmapPages(cfg, s, root, va, n);
      forall va': nat
        ensures Lookup(cfg, s'.mem, root, 0, va') ==
                  if OnPages(cfg, va, n, va') then 0 else Lookup(cfg, s.mem, root, 0, va')
      {
        SamePage(cfg, v, va');
        OnPagesStep(cfg, va, n, va');
      }
    }
  }

  lemma OnPagesStep(cfg: RvmCfg, base: nat, n: nat, va: nat)
    requires cfg.Valid() && n > 0
    ensures OnPages(cfg, base, n, va) <==>
              OnPages(cfg, base, n - 1, va) || Vpn(cfg, base + (n - 1) * cfg.PageSize()) == Vpn(cfg, va)
  {
    hide Vpn;
    if OnPages(cfg, base, n, va) {
      var j: nat :| j < n && Vpn(cfg, base + j * cfg.PageSize()) == Vpn(cfg, va);
    }
    if OnPages(cfg, base, n - 1, va) {
      var j: nat :| j < n - 1 && Vpn(cfg, base + j * cfg.PageSize()) == Vpn(cfg, va);
    }
  }

  // ---- get_pa ----

  /** The page base of the leaf entry, with whatever flag bits lie above the offset. */
  function GetPa(cfg: RvmCfg, mem: Mem, root: nat, va: nat): Option<nat>
    requires cfg.Valid() && 0 < cfg.Levels()
  {
    var leaf := Lookup(cfg, mem, root, 0, va);
    if Present(leaf) then Some(Child(cfg, leaf)) else None
  }

  lemma OrScaled(x: nat, y: nat, k: nat)
    ensures Or(x * Pow2(k), y * Pow2(k)) == Or(x, y) * Pow2(k)
  {
    hide Or, Pow2;
    var m := Pow2(k);
    MulMod(x, m);
    MulMod(y, m);
    OrHigh(x * m, y * m, k);
    var z := Or(x * m, y * m);
    assert z == z / m * m + z % m;
  }

  /** A mapped page translates to its page-aligned physical address, together with the
      flag bits that lie above the page offset; only flags marked present translate. */
  lemma GetMapped(cfg: RvmCfg, pa: nat, flags: nat)
    requires cfg.Valid() && pa % cfg.PageSize() == 0
    ensures Present(Or(pa, flags)) <==> Present(flags)
    ensures Child(cfg, Or(pa, flags)) == Or(pa, AlignDown(flags, cfg.PageSize()))
    ensures flags < cfg.PageSize() ==> Child(cfg, Or(pa, flags)) == pa
  {
    hide Or, Pow2;
    var m := cfg.PageSize();
    PageEven(cfg, pa);
    OrStep(pa, flags);
    OrHigh(pa, flags, cfg.pshift);
    OrScaled(pa / m, flags / m, cfg.pshift);
    assert pa / m * m == pa;
    if flags < m {
      DivUnique(flags, m, 0, flags);
      OrNothing(pa);
    }
  }

  /** `get_pa` after `map_page`: the mapped page translates to its page-aligned physical
      address with the flag bits above the page offset, if the flags mark it present;
      every other page translates as before, and so does every page after a failure. */
  lemma GetAfterMap(cfg: RvmCfg, s: Space, root: nat, va: nat, pa: nat, flags: nat, va': nat)
    requires cfg.Valid() && 0 < cfg.Levels() && Tree(cfg, s.mem, root, 0) && PoolOk(cfg, s) && pa % cfg.PageSize() == 0
    ensures var (s', ok) := MapF(cfg, s, root, 0, va, Or(pa, flags));
            GetPa(cfg, s'.mem, root, va') ==
              if ok && Vpn(cfg, va) == Vpn(cfg, va')
              then if Present(flags) then Some(Or(pa, AlignDown(flags, cfg.PageSize()))) else None
              else GetPa(cfg, s.mem, root, va')
  {
    hide MapF, Or, Lookup, Vpn, Tree, PoolOk, AlignDown;
    MapPage(cfg, s, root, va, Or(pa, flags), va');
    GetMapped(cfg, pa, flags);
  }

  // ---- Byte ranges ----

  lemma AlignedStep(base: nat, j: nat, page: nat)
    requires page > 0 && base % page == 0
    ensures AlignDown(base + j * page, page) == base + j * page
  {
    assert base == base / page * page;
    assert base + j * page == (base / page + j) * page;
    MulMod(base / page + j, page);
  }

  lemma AlignedBase(x: nat, page: nat)
    requires page > 0
    ensures AlignDown(x, page) % page == 0
  {
    MulMod(x / page, page);
  }

  /** Pages touched by a range, from the first to the rounded-up end. */
  function RangeEnd(va: nat, size: nat, page: nat): nat
    requires page > 0
  {
    AlignDown(va + size + page - 1, page)
  }

  function RangePages(va: nat, size: nat, page: nat): nat
    requires page > 0
  {
    if RangeEnd(va, size, page) < AlignDown(va, page) then 0
    else (RangeEnd(va, size, page) - AlignDown(va, page)) / page
  }

  /** The pages of a byte range are those it overlaps; an empty range at an unaligned
      address still has one. */
  lemma RangeCovers(va: nat, size: nat, page: nat, a: nat)
    requires page > 0
    ensures Among(AlignDown(va, page), page, RangePages(va, size, page), a)
            <==> a % page == 0 && a < va + size && va < a + page
  {
    EndRoundsUp(va + size, page);
    hide AlignUp, AlignDown;
    StrideCovers(va, va + size, page, a);
  }

  lemma EndRoundsUp(end: nat, page: nat)
    requires page > 0
    ensures AlignDown(end + page - 1, page) == AlignUp(end, page)
  {
    var q, r := end / page, end % page;
    assert end == q * page + r;
    if r == 0 {
      DivUnique(end + page - 1, page, q, page - 1);
    } else {
      assert (q + 1) * page == q * page + page;
      DivUnique(end + page - 1, page, q + 1, r - 1);
    }
  }

  lemma LookupAligned(cfg: RvmCfg, mem: Mem, root: nat, va: nat)
    requires cfg.Valid() && 0 < cfg.Levels()
    ensures Lookup(cfg, mem, root, 0, va) == Lookup(cfg, mem, root, 0, AlignDown(va, cfg.PageSize()))
  {
    hide Index, Lookup;
    forall k: nat | k < cfg.Levels() ensures Index(cfg, k, va) == Index(cfg, k, AlignDown(va, cfg.PageSize())) {
      IndexAligned(cfg, k, va);
    }
    LookupSame(cfg, mem, root, 0, va, AlignDown(va, cfg.PageSize()));
  }

  /** `map_range`: the pages the byte range overlaps, in order. */
  function MapRangeF(cfg: RvmCfg, s: Space, root: nat, va: nat, pa: nat, size: nat, flags: nat): (Space, bool)
    requires cfg.Valid() && 0 < cfg.Levels()
  {
    var page := cfg.PageSize();
    MapPages(cfg, s, root, AlignDown(va, page), AlignDown(pa, page), flags, RangePages(va, size, page))
  }

  /** A byte of the range lies on one of its pages. */
  lemma PageOfByte(va: nat, size: nat, page: nat, x: nat) returns (j: nat)
    requires page > 0 && va <= x < va + size
    ensures j < RangePages(va, size, page) && AlignDown(x, page) == AlignDown(va, page) + j * page
    ensures AlignDown(va, page) <= AlignDown(x, page)
  {
    AlignDownGreatest(x, page);
    RangeCovers(va, size, page, AlignDown(x, page));
    hide AlignDown, RangePages;
    j :| j < RangePages(va, size, page) && AlignDown(x, page) == AlignDown(va, page) + j * page;
  }

  /** After a successful `map_range`, every byte of the range lies on a page that translates
      to the physical page at the same distance from the start, with the high flag bits. */
  lemma MapRangeBytes(cfg: RvmCfg, s: Space, root: nat, va: nat, pa: nat, size: nat, flags: nat, x: nat)
    requires cfg.Valid() && 0 < cfg.Levels() && Tree(cfg, s.mem, root, 0) && PoolOk(cfg, s)
    requires RangePages(va, size, cfg.PageSize()) <= Pages(cfg) && va <= x < va + size && Present(flags)
    requires MapRangeF(cfg, s, root, va, pa, size, flags).1
    ensures AlignDown(va, cfg.PageSize()) <= AlignDown(x, cfg.PageSize())
    ensures GetPa(cfg, MapRangeF(cfg, s, root, va, pa, size, flags).0.mem, root, x) ==
              Some(Or(AlignDown(pa, cfg.PageSize()) + (AlignDown(x, cfg.PageSize()) - AlignDown(va, cfg.PageSize())),
                      AlignDown(flags, cfg.PageSize())))
  {
    hide MapPages, Or, Lookup, Pages, Pow2, Tree, PoolOk, AlignDown, RangePages;
    var page := cfg.PageSize();
    var j := PageOfByte(va, size, page, x);
    var start, base, n := AlignDown(va, page), AlignDown(pa, page), RangePages(va, size, page);
    AlignedBase(va, page);
    AlignedBase(pa, page);
    MapPagesInside(cfg, s, root, start, base, flags, n, j);
    LookupAligned(cfg, MapPages(cfg, s, root, start, base, flags, n).0.mem, root, x);
    AlignedSum(base, j, page);
    GetMapped(cfg, base + j * page, flags);
  }

  lemma AlignedSum(base: nat, j: nat, page: nat)
    requires page > 0 && base % page == 0
    ensures (base + j * page) % page == 0
  {
    AlignedStep(base, j, page);
    AlignedBase(base + j * page, page);
  }

  /** No byte outside the overlapped pages changes its translation, whether the range was
      mapped completely or not. */
  lemma MapRangeOutside(cfg: RvmCfg, s: Space, root: nat, va: nat, pa: nat, size: nat, flags: nat, x: nat)
    requires cfg.Valid() && 0 < cfg.Levels() && Tree(cfg, s.mem, root, 0) && PoolOk(cfg, s)
    requires forall a: nat :: a % cfg.PageSize() == 0 && a < va + size && va < a + cfg.PageSize() ==>
               Vpn(cfg, a) != Vpn(cfg, x)
    ensures GetPa(cfg, MapRangeF(cfg, s, root, va, pa, size, flags).0.mem, root, x) == GetPa(cfg, s.mem, root, x)
  {
    hide MapPages, Or, Lookup, Pages, Pow2, Tree, PoolOk, AlignDown, RangePages, Vpn;
    var page := cfg.PageSize();
    var start, base, n := AlignDown(va, page), AlignDown(pa, page), RangePages(va, size, page);
    forall j: nat | j < n ensures Vpn(cfg, start + j * page) != Vpn(cfg, x) {
      assert Among(start, page, n, start + j * page);
      RangeCovers(va, size, page, start + j * page);
    }
    MapPagesOutside(cfg, s, root, start, base, flags, n, x);
  }
}
