/** The calls of the ACPI handler carried out on page tables: what they leave of the
    translations there were before. */
module AcpiSpace {
  import opened Align
  import opened Bits
  import opened PageCfg
  import opened PageTree
  import opened PageMap
  import opened PageRange
  import opened Stride
  import A = AcpiMap

  /** The calls in order, through root `root`; the flag tells whether no map failed. */
  function Carried(cfg: RvmCfg, s: Space, root: nat, flags: nat, calls: seq<A.Call>): (Space, bool)
    requires cfg.Valid() && 0 < cfg.Levels()
  {
    if calls == [] then (s, true)
    else
      var (s1, ok) := Carried(cfg, s, root, flags, calls[..|calls| - 1]);
      match calls[|calls| - 1]
      case MapPage(a) => var (s2, mapped) := MapF(cfg, s1, root, 0, a, Or(a, flags)); (s2, ok && mapped)
      case UnmapPage(a) => (UnmapPage(cfg, s1, root, a), ok)
  }

  function Target(c: A.Call): nat { c.addr }

  /** The pages the calls are about. */
  function Touched(calls: seq<A.Call>): set<nat> {
    set i | 0 <= i < |calls| :: Target(calls[i])
  }

  /** The page of `va` as an address within the width the tables distinguish. */
  function PageAddr(cfg: RvmCfg, va: nat): nat
    requires cfg.Valid()
  {
    Vpn(cfg, va) * cfg.PageSize()
  }

  /** Page addresses that the tables tell apart. */
  ghost predicate InWidth(cfg: RvmCfg, calls: seq<A.Call>)
    requires cfg.Valid()
  {
    forall i {:trigger calls[i]} :: 0 <= i < |calls| ==>
      Target(calls[i]) % cfg.PageSize() == 0 && Target(calls[i]) < Pow2(cfg.vaBits)
  }

  lemma SameAddr(cfg: RvmCfg, x: nat, va: nat)
    requires cfg.Valid() && x % cfg.PageSize() == 0 && x < Pow2(cfg.vaBits)
    ensures Vpn(cfg, x) == Vpn(cfg, va) <==> x == PageAddr(cfg, va)
  {
    hide Pow2;
    var p, n := cfg.PageSize(), Pow2(cfg.vaBits - cfg.pshift);
    Pow2Add(cfg.vaBits - cfg.pshift, cfg.pshift);
    QuotRem(x, p);
    var q := x / p;
    assert x == q * p;
    BelowQuot(q, n, p);
    DivUnique(q, n, 0, q);
    SameProduct(q, Vpn(cfg, va), p);
  }

  lemma BelowQuot(q: nat, n: nat, p: nat)
    requires q * p < n * p
    ensures q < n
  {
    if q > n { MulGap(n, q, p); }
  }

  lemma SameProduct(q: nat, v: nat, p: nat)
    requires p > 0
    ensures q * p == v * p <==> q == v
  {
    MulGap(q, v, p);
    MulGap(v, q, p);
  }

  lemma TouchedMore(calls: seq<A.Call>, c: A.Call)
    ensures Touched(calls + [c]) == Touched(calls) + {Target(c)}
  {
    var more := calls + [c];
    forall x ensures x in Touched(more) <==> x in Touched(calls) + {Target(c)} {
      if x in Touched(calls) {
        var i :| 0 <= i < |calls| && Target(calls[i]) == x;
        assert more[i] == calls[i];
      }
      if x == Target(c) { assert more[|calls|] == c; }
      if x in Touched(more) {
        var i :| 0 <= i < |more| && Target(more[i]) == x;
        assert i < |calls| ==> calls[i] == more[i];
      }
    }
  }

  /** The value of a page after the calls: its own address while it is mapped, nothing once
      it was unmapped, and what it was before if no call was about it. */
  function After(cfg: RvmCfg, mem: Mem, root: nat, flags: nat, calls: seq<A.Call>, va: nat): nat
    requires cfg.Valid() && 0 < cfg.Levels()
  {
    var a := PageAddr(cfg, va);
    if a in A.Mapped(calls) then Or(a, flags)
    else if a in Touched(calls) then 0
    else Lookup(cfg, mem, root, 0, va)
  }

  ghost predicate CarriedOk(cfg: RvmCfg, s: Space, root: nat, flags: nat, calls: seq<A.Call>)
    requires cfg.Valid() && 0 < cfg.Levels()
  {
    var s' := Carried(cfg, s, root, flags, calls).0;
    && Tree(cfg, s'.mem, root, 0) && PoolOk(cfg, s')
    && forall va: nat {:trigger Lookup(cfg, s'.mem, root, 0, va)} ::
         Lookup(cfg, s'.mem, root, 0, va) == After(cfg, s.mem, root, flags, calls, va)
  }

  lemma {:induction false} CarriedLookup(cfg: RvmCfg, s: Space, root: nat, flags: nat, calls: seq<A.Call>)
    requires cfg.Valid() && 0 < cfg.Levels() && Tree(cfg, s.mem, root, 0) && PoolOk(cfg, s)
    requires InWidth(cfg, calls) && Carried(cfg, s, root, flags, calls).1
    ensures CarriedOk(cfg, s, root, flags, calls)
    decreases |calls|
  {
    hide MapF, UnmapPage, Lookup, Tree, PoolOk, Or, Vpn, PageAddr, After, Touched;
    if calls != [] {
      var n := |calls| - 1;
      var init := calls[..n];
      CarriedLookup(cfg, s, root, flags, init);
      CarriedStep(cfg, s, root, flags, init, calls[n]);
      assert init + [calls[n]] == calls;
    } else {
      CarriedNone(cfg, s, root, flags);
    }
  }

  lemma CarriedNone(cfg: RvmCfg, s: Space, root: nat, flags: nat)
    requires cfg.Valid() && 0 < cfg.Levels() && Tree(cfg, s.mem, root, 0) && PoolOk(cfg, s)
    ensures CarriedOk(cfg, s, root, flags, [])
  {
    hide Lookup, Tree, PoolOk, Or, Vpn;
  }

  lemma AfterStep(cfg: RvmCfg, mem: Mem, root: nat, flags: nat, calls: seq<A.Call>, c: A.Call, va: nat)
    requires cfg.Valid() && 0 < cfg.Levels() && Target(c) % cfg.PageSize() == 0 && Target(c) < Pow2(cfg.vaBits)
    ensures After(cfg, mem, root, flags, calls + [c], va) ==
              if Vpn(cfg, Target(c)) != Vpn(cfg, va) then After(cfg, mem, root, flags, calls, va)
              else if c.MapPage? then Or(Target(c), flags) else 0
  {
    hide Lookup, Or, Vpn, PageAddr, Pow2, A.Mapped, Touched;
    SameAddr(cfg, Target(c), va);
    A.CallMore(calls, c);
    TouchedMore(calls, c);
  }

  lemma CarriedStep(cfg: RvmCfg, s: Space, root: nat, flags: nat, calls: seq<A.Call>, c: A.Call)
    requires cfg.Valid() && 0 < cfg.Levels() && CarriedOk(cfg, s, root, flags, calls)
    requires Target(c) % cfg.PageSize() == 0 && Target(c) < Pow2(cfg.vaBits)
    requires Carried(cfg, s, root, flags, calls + [c]).1
    ensures CarriedOk(cfg, s, root, flags, calls + [c])
  {
    hide MapF, UnmapPage, Lookup, Tree, PoolOk, Or, Vpn, PageAddr, After, Pow2;
    assert (calls + [c])[..|calls + [c]| - 1] == calls;
    var s1 := Carried(cfg, s, root, flags, calls).0;
    var s2 := Carried(cfg, s, root, flags, calls + [c]).0;
    match c {
      case MapPage(a) => MapPage(cfg, s1, root, a, Or(a, flags), 0);
      case UnmapPage(a) => UnmapPageKeeps(cfg, s1, root, a);
    }
    forall va: nat ensures Lookup(cfg, s2.mem, root, 0, va) == After(cfg, s.mem, root, flags, calls + [c], va) {
      AfterStep(cfg, s.mem, root, flags, calls, c, va);
      match c {
        case MapPage(a) => MapPage(cfg, s1, root, a, Or(a, flags), va);
        case UnmapPage(a) => SamePage(cfg, a, va);
      }
    }
  }

  // ---- Runs of the handler ----

  /** Some region mapped among the first `k` operations covers the page at `a`. */
  ghost predicate Visited(ops: seq<A.Op>, page: nat, k: nat, a: nat)
    requires page > 0 && k <= |ops|
  {
    exists m: nat :: m < k && ops[m].Map? && A.Covers(ops[m].r, page, a)
  }

  lemma {:induction false} AcquireTouches(s: A.Acpi, base: nat, page: nat, n: nat, a: nat)
    requires page > 0 && A.Consistent(s) && s.rcnt.Keys <= Touched(s.calls)
    ensures a in Touched(A.Acquire(s, base, page, n).calls) <==> a in Touched(s.calls) || Among(base, page, n, a)
    ensures A.Acquire(s, base, page, n).rcnt.Keys <= Touched(A.Acquire(s, base, page, n).calls)
  {
    hide A.Consistent, Among, A.Get, Touched;
    if n == 0 {
      A.NoneAmong(base, page, a);
    } else {
      AcquireTouches(s, base, page, n - 1, a);
      A.AmongStep(base, page, n, a);
      var s1, p := A.Acquire(s, base, page, n - 1), base + (n - 1) * page;
      TouchedMore(s1.calls, A.MapPage(p));
    }
  }

  lemma {:induction false} ReleaseTouches(s: A.Acpi, base: nat, page: nat, n: nat)
    requires s.rcnt.Keys <= Touched(s.calls)
    ensures Touched(A.Release(s, base, page, n).calls) == Touched(s.calls)
    ensures A.Release(s, base, page, n).rcnt.Keys <= Touched(s.calls)
  {
    hide Touched;
    if n > 0 {
      ReleaseTouches(s, base, page, n - 1);
      var s1, p := A.Release(s, base, page, n - 1), base + (n - 1) * page;
      TouchedMore(s1.calls, A.UnmapPage(p));
    }
  }

  /** The pages the calls are about are those of all regions ever mapped. */
  lemma {:induction false} RunTouches(cs: seq<A.Config>, ops: seq<A.Op>, page: nat, k: nat)
    requires page > 0 && A.Run(cs, ops, page) && k <= |ops|
    ensures forall a: nat {:trigger Visited(ops, page, k, a)} ::
              a in Touched(cs[k].s.calls) <==> Visited(ops, page, k, a)
    ensures cs[k].s.rcnt.Keys <= Touched(cs[k].s.calls)
    decreases k
  {
    hide Touched, A.Covers, A.Acquire, A.Release, A.Consistent, A.Users, A.Mapped;
    if k > 0 {
      RunTouches(cs, ops, page, k - 1);
      A.RunCounted(cs, ops, page, k - 1);
      var c, op := cs[k - 1], ops[k - 1];
      assert A.Step(c, op, cs[k - 1 + 1], page);
      forall a: nat
        ensures a in Touched(cs[k].s.calls) <==> a in Touched(c.s.calls) || (op.Map? && A.Covers(op.r, page, a))
        ensures cs[k].s.rcnt.Keys <= Touched(cs[k].s.calls)
      {
        StepTouches(c, op, cs[k], page, a);
      }
      forall a: nat ensures a in Touched(cs[k].s.calls) <==> Visited(ops, page, k, a) {
        VisitedStep(ops, page, k, a);
      }
    } else {
      assert Touched([]) == {} by { TouchedNone(); }
    }
  }

  lemma TouchedNone()
    ensures Touched([]) == {}
  {}

  lemma VisitedStep(ops: seq<A.Op>, page: nat, k: nat, a: nat)
    requires page > 0 && 0 < k <= |ops|
    ensures Visited(ops, page, k, a) <==>
              Visited(ops, page, k - 1, a) || (ops[k - 1].Map? && A.Covers(ops[k - 1].r, page, a))
  {
    hide A.Covers;
    if Visited(ops, page, k, a) {
      var m: nat :| m < k && ops[m].Map? && A.Covers(ops[m].r, page, a);
    }
  }

  lemma StepTouches(c: A.Config, op: A.Op, c': A.Config, page: nat, a: nat)
    requires page > 0 && A.Consistent(c.s) && A.Step(c, op, c', page) && c.s.rcnt.Keys <= Touched(c.s.calls)
    ensures a in Touched(c'.s.calls) <==> a in Touched(c.s.calls) || (op.Map? && A.Covers(op.r, page, a))
    ensures c'.s.rcnt.Keys <= Touched(c'.s.calls)
  {
    hide Touched, A.Covers, A.Acquire, A.Release, A.Consistent, Among, A.FirstPage, A.PageCount;
    match op
    case Map(r) =>
      AcquireTouches(c.s, A.FirstPage(r, page), page, A.PageCount(r, page), a);
      A.AmongCovers(r, page, a);
    case Unmap(i) =>
      ReleaseTouches(c.s, A.FirstPage(c.live[i], page), page, A.PageCount(c.live[i], page));
  }

  /** All regions lie within the width of virtual addresses. */
  ghost predicate Addressable(cfg: RvmCfg, ops: seq<A.Op>) {
    forall m: nat {:trigger ops[m]} :: m < |ops| && ops[m].Map? ==> ops[m].r.start + ops[m].r.size <= Pow2(cfg.vaBits)
  }

  lemma RunInWidth(cfg: RvmCfg, cs: seq<A.Config>, ops: seq<A.Op>, k: nat)
    requires cfg.Valid() && A.Run(cs, ops, cfg.PageSize()) && k <= |ops| && Addressable(cfg, ops)
    ensures InWidth(cfg, cs[k].s.calls)
  {
    hide A.Step, Pow2, A.FirstPage, A.EndPage;
    var page, calls := cfg.PageSize(), cs[k].s.calls;
    RunTouches(cs, ops, page, k);
    forall i | 0 <= i < |calls| ensures Target(calls[i]) % page == 0 && Target(calls[i]) < Pow2(cfg.vaBits) {
      var a := Target(calls[i]);
      assert a in Touched(calls);
      assert Visited(ops, page, k, a);
      var m: nat :| m < k && ops[m].Map? && A.Covers(ops[m].r, page, a);
      A.CoversMeans(ops[m].r, page, a);
    }
  }

  /** Throughout a run whose maps succeed: a page that a live region covers translates to
      itself, a page of regions that are all unmapped again translates to nothing, and
      every other page translates as before the run. */
  lemma RunTranslates(cfg: RvmCfg, s: Space, root: nat, flags: nat, cs: seq<A.Config>, ops: seq<A.Op>, k: nat, va: nat)
    requires cfg.Valid() && 0 < cfg.Levels() && Tree(cfg, s.mem, root, 0) && PoolOk(cfg, s)
    requires A.Run(cs, ops, cfg.PageSize()) && k <= |ops| && Addressable(cfg, ops)
    requires Carried(cfg, s, root, flags, cs[k].s.calls).1
    ensures var s', a := Carried(cfg, s, root, flags, cs[k].s.calls).0, PageAddr(cfg, va);
            Lookup(cfg, s'.mem, root, 0, va) ==
              if A.Users(cs[k].live, cfg.PageSize(), a) > 0 then Or(a, flags)
              else if Visited(ops, cfg.PageSize(), k, a) then 0
              else Lookup(cfg, s.mem, root, 0, va)
  {
    hide A.Step, Pow2, Lookup, Tree, PoolOk, Or, Vpn, Carried, A.Users, A.Mapped, Touched, Visited, A.Counted, PageAddr;
    RunInWidth(cfg, cs, ops, k);
    CarriedLookup(cfg, s, root, flags, cs[k].s.calls);
    var a := PageAddr(cfg, va);
    A.RunCounted(cs, ops, cfg.PageSize(), k);
    RunTouches(cs, ops, cfg.PageSize(), k);
    assert a in Touched(cs[k].s.calls) <==> Visited(ops, cfg.PageSize(), k, a);
    assert Lookup(cfg, Carried(cfg, s, root, flags, cs[k].s.calls).0.mem, root, 0, va) ==
           After(cfg, s.mem, root, flags, cs[k].s.calls, va);
  }

  /** No page of a mapped region was translated before the run. */
  ghost predicate Untranslated(cfg: RvmCfg, mem: Mem, root: nat, ops: seq<A.Op>, k: nat)
    requires cfg.Valid() && 0 < cfg.Levels() && k <= |ops|
  {
    forall va: nat {:trigger Lookup(cfg, mem, root, 0, va)} ::
      Visited(ops, cfg.PageSize(), k, PageAddr(cfg, va)) ==> Lookup(cfg, mem, root, 0, va) == 0
  }

  /** Once every region is unmapped, all translations are as before the run if and only if
      no page of a mapped region was translated before. */
  lemma UnmappedRestoresIff(cfg: RvmCfg, s: Space, root: nat, flags: nat, cs: seq<A.Config>, ops: seq<A.Op>, k: nat)
    requires cfg.Valid() && 0 < cfg.Levels() && Tree(cfg, s.mem, root, 0) && PoolOk(cfg, s)
    requires A.Run(cs, ops, cfg.PageSize()) && k <= |ops| && Addressable(cfg, ops) && cs[k].live == []
    requires Carried(cfg, s, root, flags, cs[k].s.calls).1
    ensures SameLookups(cfg, s.mem, Carried(cfg, s, root, flags, cs[k].s.calls).0.mem, root, 0)
            <==> Untranslated(cfg, s.mem, root, ops, k)
  {
    hide A.Step, Pow2, Lookup, Tree, PoolOk, Or, Vpn, Carried, Visited, PageAddr;
    var s' := Carried(cfg, s, root, flags, cs[k].s.calls).0;
    forall va: nat
      ensures Lookup(cfg, s'.mem, root, 0, va) ==
                if Visited(ops, cfg.PageSize(), k, PageAddr(cfg, va)) then 0 else Lookup(cfg, s.mem, root, 0, va)
    {
      RunTranslates(cfg, s, root, flags, cs, ops, k, va);
    }
  }

  /** The failing case: mapping and unmapping one region over a translated page loses the
      translation. */
  lemma TranslationLost(cfg: RvmCfg, s: Space, root: nat, flags: nat, a: nat)
    requires cfg.Valid() && 0 < cfg.Levels() && Tree(cfg, s.mem, root, 0) && PoolOk(cfg, s)
    requires Lookup(cfg, s.mem, root, 0, a) != 0
    ensures Lookup(cfg, Carried(cfg, s, root, flags, [A.MapPage(a), A.UnmapPage(a)]).0.mem, root, 0, a) == 0
  {
    hide MapF, UnmapPage, Lookup, Tree, PoolOk, Or, Vpn;
    var none: seq<A.Call> := [];
    var one, two := [A.MapPage(a)], [A.MapPage(a), A.UnmapPage(a)];
    assert two[..|two| - 1] == one && one[..|one| - 1] == none;
    assert Carried(cfg, s, root, flags, none) == (s, true);
    var s1 := Carried(cfg, s, root, flags, one).0;
    assert s1 == MapF(cfg, s, root, 0, a, Or(a, flags)).0;
    MapPage(cfg, s, root, a, Or(a, flags), a);
    UnmapPageKeeps(cfg, s1, root, a);
    SamePage(cfg, a, a);
  }
}
