/** Process address spaces: a new root shares the upper half with the kernel, edits of
    the lower half never reach the kernel's tables, and dropping a space frees its own
    tables once each. */
module PageSpace {
  import opened Align
  import opened Bits
  import opened PageCfg
  import opened PageTree
  import opened PageMap

  /** First root entry of the upper half. */
  function Half(cfg: RvmCfg): nat
    requires cfg.Valid() && 0 < cfg.Levels()
  {
    EntCnt(cfg, 0) / 2
  }

  /** The upper half of the root is the upper half of the address space. */
  lemma HalfIsTopBit(cfg: RvmCfg, va: nat)
    requires cfg.Valid() && 0 < cfg.Levels()
    ensures Index(cfg, 0, va) >= Half(cfg) <==> (va / Pow2(cfg.vaBits - 1)) % 2 == 1
  {
    LevelBits(cfg);
    ShiftBound(cfg, 0);
    var s, r := cfg.Shift(0), cfg.vaBits - cfg.Shift(0);
    TopDigit(va, s, r);
    DoublePow(r);
  }

  lemma TopDigit(va: nat, s: nat, r: nat)
    requires r >= 1
    ensures (va / Pow2(s)) % Pow2(r) >= Pow2(r - 1) <==> (va / Pow2(s + r - 1)) % 2 == 1
  {
    hide Pow2;
    var x, h := va / Pow2(s), Pow2(r - 1);
    DoublePow(r);
    ModSplit(x, h, 2);
    Pow2Add(s, r - 1);
    DivDiv(va, Pow2(s), h);
    var d := (x / h) % 2;
    assert d == 0 || d == 1;
    assert d == 0 ==> d * h == 0;
  }

  lemma DoublePow(r: nat)
    requires r >= 1
    ensures Pow2(r) == Pow2(r - 1) * 2
  {}

  // ---- Creating a space ----

  function ForkTable(cfg: RvmCfg, kernel: seq<nat>): seq<nat>
    requires cfg.Valid() && 0 < cfg.Levels()
  {
    seq(|kernel|, i requires 0 <= i < |kernel| => if i < Half(cfg) then 0 else kernel[i])
  }

  /** A copy of the kernel root with the lower half cleared, in the next free frame. */
  function Fork(cfg: RvmCfg, s: Space, k: nat): Space
    requires cfg.Valid() && 0 < cfg.Levels() && k in s.mem && s.pool != []
  {
    Space(s.mem[s.pool[0] := ForkTable(cfg, s.mem[k])], s.pool[1..])
  }

  /** The tables a space owns: its root and what hangs below the lower half. */
  ghost function Own(cfg: RvmCfg, mem: Mem, p: nat): set<nat>
    requires cfg.Valid() && 0 < cfg.Levels()
  {
    {p} + set i: nat, x: nat | i < Half(cfg) && x in Sub(cfg, mem, p, 0, i) :: x
  }

  ghost predicate Shares(cfg: RvmCfg, mem: Mem, k: nat, p: nat)
    requires cfg.Valid() && 0 < cfg.Levels()
  {
    && Tree(cfg, mem, k, 0) && Tree(cfg, mem, p, 0)
    && Own(cfg, mem, p) !! Reach(cfg, mem, k, 0)
  }

  lemma OwnWitness(cfg: RvmCfg, mem: Mem, p: nat, x: nat) returns (i: nat)
    requires cfg.Valid() && 0 < cfg.Levels() && x in Own(cfg, mem, p) && x != p
    ensures i < Half(cfg) && x in Sub(cfg, mem, p, 0, i)
  {
    i :| i < Half(cfg) && x in Sub(cfg, mem, p, 0, i);
  }

  lemma SubInOwn(cfg: RvmCfg, mem: Mem, p: nat, i: nat)
    requires cfg.Valid() && 0 < cfg.Levels() && i < Half(cfg)
    ensures Sub(cfg, mem, p, 0, i) <= Own(cfg, mem, p)
  {}

  lemma ForkKernel(cfg: RvmCfg, s: Space, k: nat)
    requires cfg.Valid() && 0 < cfg.Levels() && Tree(cfg, s.mem, k, 0) && PoolOk(cfg, s) && s.pool != []
    ensures var s', p := Fork(cfg, s, k), s.pool[0];
            && Tree(cfg, s'.mem, k, 0) && SameLookups(cfg, s.mem, s'.mem, k, 0) && PoolOk(cfg, s')
            && TableOk(cfg, s'.mem, p) && p !in Reach(cfg, s'.mem, k, 0)
  {
    TreeTable(cfg, s.mem, k, 0);
    hide Index, EntCnt, Reach, Tree, Lookup;
    var s', p := Fork(cfg, s, k), s.pool[0];
    ReachExists(cfg, s.mem, k, 0);
    FrameTree(cfg, s.mem, s'.mem, k, 0);
    forall q | 0 <= q < |s'.pool| ensures s'.pool[q] !in s'.mem && s'.pool[q] % cfg.PageSize() == 0 {
      assert s'.pool[q] == s.pool[q + 1] && s.pool[0] != s.pool[q + 1];
    }
  }

  /** Root `p` is root `k` with the lower half cleared. */
  ghost predicate Halved(cfg: RvmCfg, mem: Mem, k: nat, p: nat)
    requires cfg.Valid() && 0 < cfg.Levels()
  {
    && TableOk(cfg, mem, p) && TableOk(cfg, mem, k)
    && forall i :: 0 <= i < |mem[p]| ==> mem[p][i] == if i < Half(cfg) then 0 else mem[k][i]
  }

  lemma HalvedSub(cfg: RvmCfg, mem: Mem, k: nat, p: nat, i: nat)
    requires cfg.Valid() && 0 < cfg.Levels() && Tree(cfg, mem, k, 0) && Halved(cfg, mem, k, p)
    requires p !in Reach(cfg, mem, k, 0) && i < EntCnt(cfg, 0)
    ensures Sub(cfg, mem, p, 0, i) == if i < Half(cfg) then {} else Sub(cfg, mem, k, 0, i)
    ensures Inner(cfg, 0) ==> Branch(cfg, mem, p, 0, i)
  {
    hide EntCnt, Half, Reach;
    EntCntFits(cfg, 0);
    if Inner(cfg, 0) {
      SubTree(cfg, mem, k, 0, i);
      SubInReach(cfg, mem, k, 0, i);
    }
  }

  lemma HalvedTree(cfg: RvmCfg, mem: Mem, k: nat, p: nat)
    requires cfg.Valid() && 0 < cfg.Levels() && Tree(cfg, mem, k, 0) && Halved(cfg, mem, k, p)
    requires p !in Reach(cfg, mem, k, 0)
    ensures Tree(cfg, mem, p, 0) && Own(cfg, mem, p) == {p}
  {
    hide EntCnt, Half, Reach, Sub, Branch;
    forall i: nat | i < EntCnt(cfg, 0)
      ensures Sub(cfg, mem, p, 0, i) == if i < Half(cfg) then {} else Sub(cfg, mem, k, 0, i)
      ensures Inner(cfg, 0) ==> Branch(cfg, mem, p, 0, i)
    {
      HalvedSub(cfg, mem, k, p, i);
    }
    forall i: nat, j: nat | i < j < EntCnt(cfg, 0) && Inner(cfg, 0)
      ensures Sub(cfg, mem, p, 0, i) !! Sub(cfg, mem, p, 0, j)
    {
      assert Sub(cfg, mem, k, 0, i) !! Sub(cfg, mem, k, 0, j);
    }
    HalfFits(cfg);
  }

  lemma HalvedLookup(cfg: RvmCfg, mem: Mem, k: nat, p: nat, va: nat)
    requires cfg.Valid() && 0 < cfg.Levels() && Halved(cfg, mem, k, p)
    ensures Lookup(cfg, mem, p, 0, va) == if Index(cfg, 0, va) < Half(cfg) then 0 else Lookup(cfg, mem, k, 0, va)
  {
    hide Index, EntCnt, Half;
  }

  /** A new space translates upper-half addresses exactly as the kernel does and no
      lower-half address; the kernel's own translations are unchanged. */
  lemma ForkTranslates(cfg: RvmCfg, s: Space, k: nat)
    requires cfg.Valid() && 0 < cfg.Levels() && Tree(cfg, s.mem, k, 0) && PoolOk(cfg, s) && s.pool != []
    ensures var s', p := Fork(cfg, s, k), s.pool[0];
            && Shares(cfg, s'.mem, k, p) && PoolOk(cfg, s') && Own(cfg, s'.mem, p) == {p}
            && SameLookups(cfg, s.mem, s'.mem, k, 0)
            && (forall va: nat {:trigger Lookup(cfg, s'.mem, p, 0, va)} :: Lookup(cfg, s'.mem, p, 0, va) ==
                  if Index(cfg, 0, va) < Half(cfg) then 0 else Lookup(cfg, s.mem, k, 0, va))
  {
    TreeTable(cfg, s.mem, k, 0);
    hide Index, EntCnt, Half, Reach, Tree, Lookup, Own;
    var s', p := Fork(cfg, s, k), s.pool[0];
    ForkKernel(cfg, s, k);
    TreeTable(cfg, s'.mem, k, 0);
    PoolFresh(cfg, s);
    assert Halved(cfg, s'.mem, k, p);
    HalvedTree(cfg, s'.mem, k, p);
    forall va: nat
      ensures Lookup(cfg, s'.mem, p, 0, va) == if Index(cfg, 0, va) < Half(cfg) then 0 else Lookup(cfg, s.mem, k, 0, va)
    {
      HalvedLookup(cfg, s'.mem, k, p, va);
    }
  }

  // ---- Edits of the lower half ----

  /** The tables a lower-half map adds belong to the space. */
  lemma LowMapOwn(cfg: RvmCfg, s: Space, p: nat, va: nat, entry: nat)
    requires cfg.Valid() && 0 < cfg.Levels() && Tree(cfg, s.mem, p, 0) && PoolOk(cfg, s)
    requires Index(cfg, 0, va) < Half(cfg)
    ensures var s' := MapF(cfg, s, p, 0, va, entry).0; Own(cfg, s'.mem, p) == Own(cfg, s.mem, p) + Taken(s, s')
  {
    hide Index, EntCnt, MapF, Sub, Lookup, Tree, Half, PoolOk;
    var i := Index(cfg, 0, va);
    MapRefines(cfg, s, p, 0, va, entry);
    var s' := MapF(cfg, s, p, 0, va, entry).0;
    HalfFits(cfg);
    forall x ensures x in Own(cfg, s'.mem, p) <==> x in Own(cfg, s.mem, p) + Taken(s, s') {
      if x in Own(cfg, s'.mem, p) && x != p {
        var j := OwnWitness(cfg, s'.mem, p, x);
        assert j != i ==> x in Sub(cfg, s.mem, p, 0, j);
      }
      if x in Own(cfg, s.mem, p) && x != p {
        var j := OwnWitness(cfg, s.mem, p, x);
        assert x in Sub(cfg, s'.mem, p, 0, j);
      }
      if x in Taken(s, s') { assert x in Sub(cfg, s'.mem, p, 0, i); }
    }
  }

  /** Mapping a lower-half page through a space leaves every kernel translation alone. */
  lemma LowMapShares(cfg: RvmCfg, s: Space, k: nat, p: nat, va: nat, entry: nat)
    requires cfg.Valid() && 0 < cfg.Levels() && Shares(cfg, s.mem, k, p) && PoolOk(cfg, s)
    requires Index(cfg, 0, va) < Half(cfg)
    ensures var s' := MapF(cfg, s, p, 0, va, entry).0;
            && Shares(cfg, s'.mem, k, p) && PoolOk(cfg, s')
            && Own(cfg, s'.mem, p) == Own(cfg, s.mem, p) + Taken(s, s')
            && SameLookups(cfg, s.mem, s'.mem, k, 0)
  {
    hide Index, EntCnt, MapF, Sub, Reach, Lookup, Tree, Half, PoolOk;
    var s' := MapF(cfg, s, p, 0, va, entry).0;
    MapRefines(cfg, s, p, 0, va, entry);
    SubInOwn(cfg, s.mem, p, Index(cfg, 0, va));
    LowMapOwn(cfg, s, p, va, entry);
    assert p in Own(cfg, s.mem, p);
    hide Own;
    ReachExists(cfg, s.mem, k, 0);
    FrameTree(cfg, s.mem, s'.mem, k, 0);
  }

  lemma HalfFits(cfg: RvmCfg)
    requires cfg.Valid() && 0 < cfg.Levels()
    ensures Half(cfg) < EntCnt(cfg, 0)
  {}

  /** So does unmapping one. */
  lemma LowUnmapShares(cfg: RvmCfg, mem: Mem, k: nat, p: nat, va: nat)
    requires cfg.Valid() && 0 < cfg.Levels() && Shares(cfg, mem, k, p)
    requires Index(cfg, 0, va) < Half(cfg)
    ensures var (mem', freed, _) := UnmapF(cfg, mem, p, 0, va);
            && Shares(cfg, mem', k, p)
            && Own(cfg, mem', p) == Own(cfg, mem, p) - Elems(freed)
            && SameLookups(cfg, mem, mem', k, 0)
  {
    hide Index, EntCnt, UnmapF, Sub, Reach, Lookup, Tree, Half;
    var (mem', freed, empty) := UnmapF(cfg, mem, p, 0, va);
    UnmapRefines(cfg, mem, p, 0, va);
    SubInOwn(cfg, mem, p, Index(cfg, 0, va));
    LowUnmapOwn(cfg, mem, p, va);
    assert p in Own(cfg, mem, p);
    hide Own;
    ReachExists(cfg, mem, k, 0);
    FrameTree(cfg, mem, mem', k, 0);
  }

  /** The tables a lower-half unmap frees belonged to the space. */
  lemma LowUnmapOwn(cfg: RvmCfg, mem: Mem, p: nat, va: nat)
    requires cfg.Valid() && 0 < cfg.Levels() && Tree(cfg, mem, p, 0) && Index(cfg, 0, va) < Half(cfg)
    ensures var (mem', freed, _) := UnmapF(cfg, mem, p, 0, va); Own(cfg, mem', p) == Own(cfg, mem, p) - Elems(freed)
  {
    hide Index, EntCnt, UnmapF, Sub, Lookup, Tree, Half, Reach;
    var i := Index(cfg, 0, va);
    UnmapRefines(cfg, mem, p, 0, va);
    var (mem', freed, empty) := UnmapF(cfg, mem, p, 0, va);
    ReachShrinks(cfg, mem, p, 0, va, mem', freed, empty);
    HalfFits(cfg);
    forall x ensures x in Own(cfg, mem', p) <==> x in Own(cfg, mem, p) - Elems(freed) {
      if x in Own(cfg, mem', p) && x != p {
        var j := OwnWitness(cfg, mem', p, x);
        assert x in Sub(cfg, mem, p, 0, j);
        SubInReach(cfg, mem', p, 0, j);
      }
      if x in Own(cfg, mem, p) - Elems(freed) && x != p {
        var j := OwnWitness(cfg, mem, p, x);
        assert x in Sub(cfg, mem', p, 0, j);
      }
    }
  }

  // ---- Dropping a space ----

  function DropCount(cfg: RvmCfg, l: nat): nat
    requires cfg.Valid() && l < cfg.Levels()
  {
    if l == 0 then Half(cfg) else EntCnt(cfg, l)
  }

  /** The tables `_drop` frees below the first `n` entries of `t`, in order. */
  function DropUpTo(cfg: RvmCfg, mem: Mem, t: nat, l: nat, n: nat): seq<nat>
    requires cfg.Valid() && l < cfg.Levels()
    decreases cfg.Levels() - l, 0, n
  {
    if n == 0 then []
    else DropUpTo(cfg, mem, t, l, n - 1) +
         if Inner(cfg, l) && t in mem && n - 1 < |mem[t]| && Present(mem[t][n - 1])
         then DropList(cfg, mem, Child(cfg, mem[t][n - 1]), l + 1) else []
  }

  function DropList(cfg: RvmCfg, mem: Mem, t: nat, l: nat): seq<nat>
    requires cfg.Valid() && l < cfg.Levels()
    decreases cfg.Levels() - l, 1, 0
  {
    DropUpTo(cfg, mem, t, l, DropCount(cfg, l)) + [t]
  }

  ghost function SubsUpTo(cfg: RvmCfg, mem: Mem, t: nat, l: nat, n: nat): set<nat>
    requires cfg.Valid() && l < cfg.Levels()
  {
    set i: nat, x: nat | i < n && x in Sub(cfg, mem, t, l, i) :: x
  }

  lemma SubsStep(cfg: RvmCfg, mem: Mem, t: nat, l: nat, n: nat)
    requires cfg.Valid() && l < cfg.Levels() && n > 0
    ensures SubsUpTo(cfg, mem, t, l, n) == SubsUpTo(cfg, mem, t, l, n - 1) + Sub(cfg, mem, t, l, n - 1)
  {
    forall x
      ensures x in SubsUpTo(cfg, mem, t, l, n) <==> x in SubsUpTo(cfg, mem, t, l, n - 1) + Sub(cfg, mem, t, l, n - 1)
    {
      if x in SubsUpTo(cfg, mem, t, l, n) {
        var i: nat :| i < n && x in Sub(cfg, mem, t, l, i);
      }
    }
  }

  lemma DistinctConcat(xs: seq<nat>, ys: seq<nat>)
    requires Distinct(xs) && Distinct(ys) && Elems(xs) !! Elems(ys)
    ensures Distinct(xs + ys) && Elems(xs + ys) == Elems(xs) + Elems(ys)
  {
    forall i, j | 0 <= i < j < |xs + ys| ensures (xs + ys)[i] != (xs + ys)[j] {
      if i < |xs| <= j {
        assert xs[i] in Elems(xs) && ys[j - |xs|] in Elems(ys);
      }
    }
  }

  lemma {:induction false} DropUpToExact(cfg: RvmCfg, mem: Mem, t: nat, l: nat, n: nat)
    requires cfg.Valid() && l < cfg.Levels() && Tree(cfg, mem, t, l) && n <= EntCnt(cfg, l)
    ensures Distinct(DropUpTo(cfg, mem, t, l, n))
    ensures Elems(DropUpTo(cfg, mem, t, l, n)) == SubsUpTo(cfg, mem, t, l, n)
    decreases cfg.Levels() - l, 0, n
  {
    hide EntCnt, Reach, DropList;
    if n > 0 {
      DropUpToExact(cfg, mem, t, l, n - 1);
      SubsStep(cfg, mem, t, l, n);
      if Inner(cfg, l) {
        SubTree(cfg, mem, t, l, n - 1);
        if Present(mem[t][n - 1]) {
          var c := Child(cfg, mem[t][n - 1]);
          DropListExact(cfg, mem, c, l + 1);
          assert SubsUpTo(cfg, mem, t, l, n - 1) !! Sub(cfg, mem, t, l, n - 1);
          DistinctConcat(DropUpTo(cfg, mem, t, l, n - 1), DropList(cfg, mem, c, l + 1));
        }
      }
    } else {
      assert SubsUpTo(cfg, mem, t, l, 0) == {};
    }
  }

  lemma {:induction false} DropListExact(cfg: RvmCfg, mem: Mem, t: nat, l: nat)
    requires cfg.Valid() && l < cfg.Levels() && Tree(cfg, mem, t, l)
    ensures Distinct(DropList(cfg, mem, t, l))
    ensures Elems(DropList(cfg, mem, t, l)) == if l == 0 then Own(cfg, mem, t) else Reach(cfg, mem, t, l)
    decreases cfg.Levels() - l, 1, 0
  {
    hide EntCnt;
    var n := DropCount(cfg, l);
    if l == 0 { HalfFits(cfg); }
    DropUpToExact(cfg, mem, t, l, n);
    assert t !in SubsUpTo(cfg, mem, t, l, n) by {
      if t in SubsUpTo(cfg, mem, t, l, n) {
        var i: nat :| i < n && t in Sub(cfg, mem, t, l, i);
        SubTree(cfg, mem, t, l, i);
      }
    }
    DistinctConcat(DropUpTo(cfg, mem, t, l, n), [t]);
    assert Elems([t]) == {t};
  }

  /** Dropping a space frees each table it owns exactly once, and no kernel translation
      changes. */
  lemma DropFreesOwn(cfg: RvmCfg, mem: Mem, k: nat, p: nat)
    requires cfg.Valid() && 0 < cfg.Levels() && Shares(cfg, mem, k, p)
    ensures Distinct(DropList(cfg, mem, p, 0)) && Elems(DropList(cfg, mem, p, 0)) == Own(cfg, mem, p)
    ensures Tree(cfg, mem - Own(cfg, mem, p), k, 0) && SameLookups(cfg, mem, mem - Own(cfg, mem, p), k, 0)
  {
    hide EntCnt, DropList;
    DropListExact(cfg, mem, p, 0);
    ReachExists(cfg, mem, k, 0);
    FrameTree(cfg, mem, mem - Own(cfg, mem, p), k, 0);
  }
}
