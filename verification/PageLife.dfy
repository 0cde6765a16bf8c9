/** The life of a process space from its creation to its end, and what edits of the
    kernel's own tables mean for a space that shares them. */
module PageLife {
  import opened Align
  import opened Bits
  import opened PageCfg
  import opened PageTree
  import opened PageMap
  import opened PageRange
  import opened PagePrune
  import opened PageSpace
  import opened PageRun

  ghost predicate Low(cfg: RvmCfg, ops: seq<PageOp>)
    requires cfg.Valid() && 0 < cfg.Levels()
  {
    forall i :: 0 <= i < |ops| ==> Index(cfg, 0, ops[i].va) < Half(cfg)
  }

  /** The space with root `p` was created over `s0`: every table of `s0` is still there as
      it was, and all tables added since belong to the space; the space translates
      upper-half addresses as the kernel did then. */
  ghost predicate Living(cfg: RvmCfg, s0: Space, s: Space, k: nat, p: nat)
    requires cfg.Valid() && 0 < cfg.Levels()
  {
    && Shares(cfg, s.mem, k, p) && PoolOk(cfg, s)
    && Kept(s0, s, Own(cfg, s.mem, p))
    && UpperAsKernel(cfg, s0, s, k, p)
  }

  /** The tables are those of `s0`, unchanged, and `own`; no frame is lost. */
  ghost predicate Kept(s0: Space, s: Space, own: set<nat>) {
    && s.mem.Keys == s0.mem.Keys + own && own !! s0.mem.Keys
    && (forall x :: x in s0.mem ==> s.mem[x] == s0.mem[x])
    && Elems(s.pool) + s.mem.Keys == Elems(s0.pool) + s0.mem.Keys
  }

  ghost predicate UpperAsKernel(cfg: RvmCfg, s0: Space, s: Space, k: nat, p: nat)
    requires cfg.Valid() && 0 < cfg.Levels()
  {
    forall va: nat {:trigger Lookup(cfg, s.mem, p, 0, va)} :: Index(cfg, 0, va) >= Half(cfg) ==>
      Lookup(cfg, s.mem, p, 0, va) == Lookup(cfg, s0.mem, k, 0, va)
  }

  lemma ForkLiving(cfg: RvmCfg, s: Space, k: nat)
    requires cfg.Valid() && 0 < cfg.Levels() && Tree(cfg, s.mem, k, 0) && PoolOk(cfg, s) && s.pool != []
    ensures Living(cfg, s, Fork(cfg, s, k), k, s.pool[0])
  {
    TreeTable(cfg, s.mem, k, 0);
    ForkTranslates(cfg, s, k);
    hide Shares, Own, PoolOk, Lookup, Tree, Index, Half, ForkTable;
    PoolFresh(cfg, s);
    assert s.pool == [s.pool[0]] + s.pool[1..];
  }

  lemma LowMapLiving(cfg: RvmCfg, s0: Space, s: Space, k: nat, p: nat, va: nat, entry: nat)
    requires cfg.Valid() && 0 < cfg.Levels() && Living(cfg, s0, s, k, p) && Index(cfg, 0, va) < Half(cfg)
    ensures Living(cfg, s0, MapF(cfg, s, p, 0, va, entry).0, k, p)
  {
    hide MapF, Lookup, Tree, Index, EntCnt, Half, PoolOk, Shares, UpperAsKernel, Own, Kept;
    var s' := MapF(cfg, s, p, 0, va, entry).0;
    LowMapShares(cfg, s, k, p, va, entry);
    LowMapUpper(cfg, s0, s, k, p, va, entry);
    LowMapFrame(cfg, s, k, p, va, entry);
    PoolDistinct(cfg, s);
    KeptDraws(s0, s, s', Own(cfg, s.mem, p));
  }

  lemma LowMapFrame(cfg: RvmCfg, s: Space, k: nat, p: nat, va: nat, entry: nat)
    requires cfg.Valid() && 0 < cfg.Levels() && Shares(cfg, s.mem, k, p) && PoolOk(cfg, s)
             && Index(cfg, 0, va) < Half(cfg)
    ensures var s' := MapF(cfg, s, p, 0, va, entry).0;
            Draws(s, s') && forall x :: x in s.mem && x !in Own(cfg, s.mem, p) ==> s'.mem[x] == s.mem[x]
  {
    hide MapF, Reach, Sub, Lookup, Tree, Index, EntCnt, Half, PoolOk;
    MapRefines(cfg, s, p, 0, va, entry);
    SubInOwn(cfg, s.mem, p, Index(cfg, 0, va));
  }

  lemma KeptDraws(s0: Space, s: Space, s': Space, own: set<nat>)
    requires Kept(s0, s, own) && Draws(s, s') && Elems(s.pool) !! s.mem.Keys
    requires forall x :: x in s.mem && x !in own ==> s'.mem[x] == s.mem[x]
    ensures Kept(s0, s', own + Taken(s, s'))
  {
    var n := |s.pool| - |s'.pool|;
    assert s.pool == s.pool[..n] + s.pool[n..];
    assert Elems(s.pool) == Elems(s.pool[..n]) + Elems(s'.pool);
  }

  lemma KeptReturns(s0: Space, s: Space, s': Space, own: set<nat>, freed: seq<nat>)
    requires Kept(s0, s, own) && Elems(freed) <= own
    requires s'.mem.Keys == s.mem.Keys - Elems(freed) && s'.pool == s.pool + freed
    requires forall x :: x in s'.mem && x !in own ==> s'.mem[x] == s.mem[x]
    ensures Kept(s0, s', own - Elems(freed))
  {
    assert Elems(s.pool + freed) == Elems(s.pool) + Elems(freed);
  }

  lemma LowMapUpper(cfg: RvmCfg, s0: Space, s: Space, k: nat, p: nat, va: nat, entry: nat)
    requires cfg.Valid() && 0 < cfg.Levels() && Living(cfg, s0, s, k, p) && Index(cfg, 0, va) < Half(cfg)
    ensures UpperAsKernel(cfg, s0, MapF(cfg, s, p, 0, va, entry).0, k, p)
  {
    hide MapF, Reach, Sub, Lookup, Tree, Index, EntCnt, Half, PoolOk, Own;
    var s' := MapF(cfg, s, p, 0, va, entry).0;
    MapRefines(cfg, s, p, 0, va, entry);
    forall va': nat | Index(cfg, 0, va') >= Half(cfg)
      ensures Lookup(cfg, s'.mem, p, 0, va') == Lookup(cfg, s0.mem, k, 0, va')
    {
      OtherRootEntry(cfg, va, va');
    }
  }

  lemma OtherRootEntry(cfg: RvmCfg, va: nat, va': nat)
    requires cfg.Valid() && 0 < cfg.Levels() && Index(cfg, 0, va) != Index(cfg, 0, va')
    ensures !SameFrom(cfg, 0, va, va')
  {
    hide Index;
  }

  lemma LowUnmapLiving(cfg: RvmCfg, s0: Space, s: Space, k: nat, p: nat, va: nat)
    requires cfg.Valid() && 0 < cfg.Levels() && Living(cfg, s0, s, k, p) && Index(cfg, 0, va) < Half(cfg)
    ensures Living(cfg, s0, UnmapPage(cfg, s, p, va), k, p)
  {
    hide UnmapF, Lookup, Tree, Index, EntCnt, Half, PoolOk, Shares, UpperAsKernel, Own, Kept;
    var (mem, freed, empty) := UnmapF(cfg, s.mem, p, 0, va);
    SharesTrees(cfg, s.mem, k, p);
    LowUnmapShares(cfg, s.mem, k, p, va);
    UnmapPageKeeps(cfg, s, p, va);
    LowUnmapUpper(cfg, s0, s, k, p, va);
    LowUnmapFrame(cfg, s.mem, p, va);
    KeptReturns(s0, s, UnmapPage(cfg, s, p, va), Own(cfg, s.mem, p), freed);
  }

  lemma SharesTrees(cfg: RvmCfg, mem: Mem, k: nat, p: nat)
    requires cfg.Valid() && 0 < cfg.Levels() && Shares(cfg, mem, k, p)
    ensures Tree(cfg, mem, k, 0) && Tree(cfg, mem, p, 0)
  {}

  lemma LowUnmapFrame(cfg: RvmCfg, mem: Mem, p: nat, va: nat)
    requires cfg.Valid() && 0 < cfg.Levels() && Tree(cfg, mem, p, 0) && Index(cfg, 0, va) < Half(cfg)
    ensures var (mem', freed, _) := UnmapF(cfg, mem, p, 0, va);
            && Elems(freed) <= Own(cfg, mem, p) && mem'.Keys == mem.Keys - Elems(freed)
            && forall x :: x in mem' && x !in Own(cfg, mem, p) ==> mem'[x] == mem[x]
  {
    hide UnmapF, Reach, Sub, Lookup, Tree, Index, EntCnt, Half;
    UnmapRefines(cfg, mem, p, 0, va);
    SubInOwn(cfg, mem, p, Index(cfg, 0, va));
  }

  lemma LowUnmapUpper(cfg: RvmCfg, s0: Space, s: Space, k: nat, p: nat, va: nat)
    requires cfg.Valid() && 0 < cfg.Levels() && Tree(cfg, s.mem, p, 0) && UpperAsKernel(cfg, s0, s, k, p)
    requires Index(cfg, 0, va) < Half(cfg)
    ensures UpperAsKernel(cfg, s0, UnmapPage(cfg, s, p, va), k, p)
  {
    hide UnmapF, Reach, Sub, Lookup, Tree, Index, EntCnt, Half;
    var mem := UnmapF(cfg, s.mem, p, 0, va).0;
    UnmapRefines(cfg, s.mem, p, 0, va);
    forall va': nat | Index(cfg, 0, va') >= Half(cfg)
      ensures Lookup(cfg, mem, p, 0, va') == Lookup(cfg, s0.mem, k, 0, va')
    {
      OtherRootEntry(cfg, va, va');
    }
  }

  lemma {:induction false} RunLiving(cfg: RvmCfg, s0: Space, s: Space, k: nat, p: nat, ops: seq<PageOp>)
    requires cfg.Valid() && 0 < cfg.Levels() && Living(cfg, s0, s, k, p) && Low(cfg, ops)
    ensures Living(cfg, s0, Run(cfg, s, p, ops).0, k, p)
    decreases |ops|
  {
    hide Living, MapF, UnmapPage, Index, Half;
    if ops != [] {
      match ops[0] {
        case Map(va, entry) => LowMapLiving(cfg, s0, s, k, p, va, entry);
        case Unmap(va) => LowUnmapLiving(cfg, s0, s, k, p, va);
      }
      RunLiving(cfg, s0, Exec(cfg, s, p, ops[0]).0, k, p, ops[1..]);
    }
  }

  /** What dropping the space with root `p` leaves. */
  function DropSpace(cfg: RvmCfg, s: Space, p: nat): Space
    requires cfg.Valid() && 0 < cfg.Levels()
  {
    var list := DropList(cfg, s.mem, p, 0);
    Space(s.mem - (set x | x in list), s.pool + list)
  }

  /** Creating a space, any maps (also failing ones) and unmaps of lower-half pages through
      it, and dropping it: while it lives the kernel's tables are untouched and the space
      translates the upper half as the kernel did at its creation; afterwards memory is
      exactly as before, and the pool holds exactly the frames it held before. */
  lemma LifeRestores(cfg: RvmCfg, s: Space, k: nat, ops: seq<PageOp>)
    requires cfg.Valid() && 0 < cfg.Levels() && Tree(cfg, s.mem, k, 0) && PoolOk(cfg, s) && s.pool != []
             && Low(cfg, ops)
    ensures var p := s.pool[0];
            var s1 := Run(cfg, Fork(cfg, s, k), p, ops).0;
            && Living(cfg, s, s1, k, p)
            && DropSpace(cfg, s1, p).mem == s.mem
            && multiset(DropSpace(cfg, s1, p).pool) == multiset(s.pool)
  {
    hide Run, Fork, Reach, Tree, Lookup, DropList, Low, UpperAsKernel;
    var p := s.pool[0];
    assert k in s.mem by { TreeTable(cfg, s.mem, k, 0); }
    ForkLiving(cfg, s, k);
    RunLiving(cfg, s, Fork(cfg, s, k), k, p, ops);
    var s1 := Run(cfg, Fork(cfg, s, k), p, ops).0;
    DropFreesOwn(cfg, s1.mem, k, p);
    hide Own, Shares, Kept;
    PoolDistinct(cfg, s);
    PoolDistinct(cfg, s1);
    hide PoolOk;
    KeptDropped(s, s1, DropList(cfg, s1.mem, p, 0));
  }

  /** Returning all tables added since `s0` gives back its memory and its pool. */
  lemma KeptDropped(s0: Space, s: Space, list: seq<nat>)
    requires Distinct(list) && Kept(s0, s, Elems(list))
    requires Distinct(s0.pool) && Elems(s0.pool) !! s0.mem.Keys && Distinct(s.pool) && Elems(s.pool) !! s.mem.Keys
    ensures s.mem - (set x | x in list) == s0.mem
    ensures multiset(s.pool + list) == multiset(s0.pool)
  {
    assert (set x | x in list) == Elems(list);
    DistinctConcat(s.pool, list);
    BagOf(s.pool + list, s0.pool, {});
  }

  // ---- Edits through the kernel's root ----

  /** Every upper root entry of the space is the kernel's, or empty where the kernel's was
      empty when the space was created. */
  ghost predicate Mirrors(cfg: RvmCfg, mem: Mem, k: nat, p: nat)
    requires cfg.Valid() && 0 < cfg.Levels()
  {
    && Shares(cfg, mem, k, p)
    && |mem[p]| == |mem[k]| == TableLen(cfg)
    && forall j: nat {:trigger mem[p][j]} :: Half(cfg) <= j < EntCnt(cfg, 0) && j < |mem[p]| ==>
         mem[p][j] == mem[k][j] || mem[p][j] == 0
  }

  /** The space uses the kernel's table under the root entry of `va`. */
  ghost predicate Uses(cfg: RvmCfg, mem: Mem, k: nat, p: nat, va: nat)
    requires cfg.Valid() && 0 < cfg.Levels()
  {
    var i := Index(cfg, 0, va);
    && p in mem && k in mem && i < |mem[p]| && i < |mem[k]|
    && i >= Half(cfg) && mem[p][i] == mem[k][i] && Present(mem[k][i])
  }

  /** The tables under another root entry of the space than that of `va` are none of those
      under the kernel's root entry of `va`. */
  lemma ApartFrom(cfg: RvmCfg, mem: Mem, k: nat, p: nat, i: nat, j: nat)
    requires cfg.Valid() && Inner(cfg, 0) && Mirrors(cfg, mem, k, p) && i < EntCnt(cfg, 0) && j < EntCnt(cfg, 0)
    requires p in mem && j < |mem[p]| && (i != j || j < Half(cfg) || mem[p][j] == 0)
    ensures Sub(cfg, mem, p, 0, j) !! Sub(cfg, mem, k, 0, i) && k !in Sub(cfg, mem, p, 0, j)
  {
    hide EntCnt, Reach, Tree, Branch, Half;
    TreeTable(cfg, mem, k, 0);
    SubInReach(cfg, mem, k, 0, i);
    RootReached(cfg, mem, k);
    if j < Half(cfg) {
      SubInOwn(cfg, mem, p, j);
    } else if mem[p][j] != 0 {
      assert mem[p][j] == mem[k][j];
      assert Sub(cfg, mem, p, 0, j) == Sub(cfg, mem, k, 0, j);
      SubsApart(cfg, mem, k, i, j);
      SubTree(cfg, mem, k, 0, j);
    }
  }

  lemma SubsApart(cfg: RvmCfg, mem: Mem, t: nat, i: nat, j: nat)
    requires cfg.Valid() && Inner(cfg, 0) && Tree(cfg, mem, t, 0) && i < EntCnt(cfg, 0) && j < EntCnt(cfg, 0) && i != j
    ensures Sub(cfg, mem, t, 0, i) !! Sub(cfg, mem, t, 0, j)
  {
    hide EntCnt, Reach, Branch;
    assert Sub(cfg, mem, t, 0, if i < j then i else j) !! Sub(cfg, mem, t, 0, if i < j then j else i);
  }

  /** What an edit through the kernel's root leaves alone. */
  ghost predicate Outside(cfg: RvmCfg, mem: Mem, k: nat, i: nat, mem': Mem)
    requires cfg.Valid() && 0 < cfg.Levels()
  {
    forall x :: x in mem && x != k && x !in Sub(cfg, mem, k, 0, i) ==> x in mem' && mem'[x] == mem[x]
  }

  lemma RootOutside(cfg: RvmCfg, mem: Mem, k: nat, p: nat, i: nat, mem': Mem)
    requires cfg.Valid() && Inner(cfg, 0) && Mirrors(cfg, mem, k, p) && i < EntCnt(cfg, 0)
    requires Outside(cfg, mem, k, i, mem')
    ensures p in mem && p in mem' && mem'[p] == mem[p] && p != k && p !in Reach(cfg, mem, k, 0)
  {
    hide EntCnt, Reach;
    TreeTable(cfg, mem, p, 0);
    SubInReach(cfg, mem, k, 0, i);
    RootReached(cfg, mem, k);
    assert p in Own(cfg, mem, p);
  }

  /** A space that does not use the edited subtree keeps its whole tree. */
  lemma UnusedKeeps(cfg: RvmCfg, mem: Mem, k: nat, p: nat, va: nat, mem': Mem)
    requires cfg.Valid() && Inner(cfg, 0) && Mirrors(cfg, mem, k, p) && !Uses(cfg, mem, k, p, va)
    requires Outside(cfg, mem, k, Index(cfg, 0, va), mem')
    ensures Tree(cfg, mem', p, 0) && Own(cfg, mem', p) == Own(cfg, mem, p) && SameLookups(cfg, mem, mem', p, 0)
  {
    hide EntCnt, Index, Reach, Tree, Branch, Sub, Half;
    var i := Index(cfg, 0, va);
    ReachExists(cfg, mem, p, 0);
    RootOutside(cfg, mem, k, p, i, mem');
    EntCntFits(cfg, 0);
    UnusedEntry(cfg, mem, k, p, va);
    forall x | x in Reach(cfg, mem, p, 0) ensures x in mem && x in mem' && mem'[x] == mem[x] {
      if x != p {
        var j := ReachWitness(cfg, mem, p, 0, x);
        ApartFrom(cfg, mem, k, p, i, j);
      }
    }
    FrameTree(cfg, mem, mem', p, 0);
    forall x | x in Own(cfg, mem, p) ensures x in mem && x in mem' && mem'[x] == mem[x] {
      OwnOutside(cfg, mem, k, p, i, mem', x);
    }
    OwnSame(cfg, mem, mem', p);
  }

  lemma UnusedEntry(cfg: RvmCfg, mem: Mem, k: nat, p: nat, va: nat)
    requires cfg.Valid() && Inner(cfg, 0) && Mirrors(cfg, mem, k, p) && !Uses(cfg, mem, k, p, va)
    ensures var i := Index(cfg, 0, va); p in mem && i < |mem[p]| && (i < Half(cfg) || mem[p][i] == 0)
  {
    hide EntCnt, Index, Reach, Sub, Half;
    var i := Index(cfg, 0, va);
    SubTree(cfg, mem, p, 0, i);
    SubTree(cfg, mem, k, 0, i);
    assert i >= Half(cfg) ==> mem[p][i] == mem[k][i] || mem[p][i] == 0;
  }

  lemma OwnSame(cfg: RvmCfg, mem: Mem, mem': Mem, p: nat)
    requires cfg.Valid() && Inner(cfg, 0) && Tree(cfg, mem, p, 0)
    requires Agree(mem, mem', Own(cfg, mem, p))
    ensures Own(cfg, mem', p) == Own(cfg, mem, p)
  {
    hide EntCnt;
    HalfFits(cfg);
    forall i: nat | i < Half(cfg) ensures Sub(cfg, mem', p, 0, i) == Sub(cfg, mem, p, 0, i) {
      SubTree(cfg, mem, p, 0, i);
      SubInOwn(cfg, mem, p, i);
      assert p in Own(cfg, mem, p);
      if Present(mem[p][i]) { FrameTree(cfg, mem, mem', Child(cfg, mem[p][i]), 1); }
    }
  }

  /** A space that uses the edited subtree follows the edit as long as its top is there. */
  lemma UsedFollows(cfg: RvmCfg, mem: Mem, k: nat, p: nat, va: nat, mem': Mem)
    requires cfg.Valid() && Inner(cfg, 0) && Mirrors(cfg, mem, k, p) && Uses(cfg, mem, k, p, va)
    requires Outside(cfg, mem, k, Index(cfg, 0, va), mem') && Tree(cfg, mem', k, 0)
    requires k in mem' && Index(cfg, 0, va) < |mem'[k]| && mem'[k][Index(cfg, 0, va)] == mem[k][Index(cfg, 0, va)]
    requires Sub(cfg, mem', k, 0, Index(cfg, 0, va)) <= Sub(cfg, mem, k, 0, Index(cfg, 0, va)) + (mem'.Keys - mem.Keys)
    ensures Tree(cfg, mem', p, 0) && Own(cfg, mem', p) == Own(cfg, mem, p)
    ensures forall va': nat {:trigger Lookup(cfg, mem', p, 0, va')} :: Lookup(cfg, mem', p, 0, va') ==
              if Index(cfg, 0, va') == Index(cfg, 0, va) then Lookup(cfg, mem', k, 0, va')
              else Lookup(cfg, mem, p, 0, va')
  {
    hide EntCnt, Index, Reach, Tree, Branch, Sub, Half;
    var i := Index(cfg, 0, va);
    RootOutside(cfg, mem, k, p, i, mem');
    OthersOutside(cfg, mem, k, p, i, mem');
    SharedBranch(cfg, mem, k, p, i, mem');
    TreeTable(cfg, mem, p, 0);
    Regraft(cfg, mem, mem', p, 0, i);
    forall x | x in Own(cfg, mem, p) ensures x in mem && x in mem' && mem'[x] == mem[x] {
      OwnOutside(cfg, mem, k, p, i, mem', x);
    }
    OwnSame(cfg, mem, mem', p);
    forall va': nat | Index(cfg, 0, va') == i ensures Lookup(cfg, mem', p, 0, va') == Lookup(cfg, mem', k, 0, va') {}
  }

  /** The other subtrees of the space are untouched and apart from the edited one. */
  lemma OthersOutside(cfg: RvmCfg, mem: Mem, k: nat, p: nat, i: nat, mem': Mem)
    requires cfg.Valid() && Inner(cfg, 0) && Mirrors(cfg, mem, k, p) && i < EntCnt(cfg, 0)
    requires Outside(cfg, mem, k, i, mem')
    requires Sub(cfg, mem', k, 0, i) <= Sub(cfg, mem, k, 0, i) + (mem'.Keys - mem.Keys)
    ensures forall j: nat {:trigger Sub(cfg, mem, p, 0, j)} :: j < EntCnt(cfg, 0) && j != i ==>
              Agree(mem, mem', Sub(cfg, mem, p, 0, j)) && Sub(cfg, mem, p, 0, j) !! Sub(cfg, mem', k, 0, i)
  {
    hide EntCnt, Reach, Tree, Branch, Sub, Half;
    EntCntFits(cfg, 0);
    TreeTable(cfg, mem, p, 0);
    ReachExists(cfg, mem, p, 0);
    forall j: nat | j < EntCnt(cfg, 0) && j != i
      ensures Agree(mem, mem', Sub(cfg, mem, p, 0, j)) && Sub(cfg, mem, p, 0, j) !! Sub(cfg, mem', k, 0, i)
    {
      ApartFrom(cfg, mem, k, p, i, j);
      SubInReach(cfg, mem, p, 0, j);
    }
  }

  lemma SharedBranch(cfg: RvmCfg, mem: Mem, k: nat, p: nat, i: nat, mem': Mem)
    requires cfg.Valid() && Inner(cfg, 0) && Tree(cfg, mem', k, 0) && i < EntCnt(cfg, 0)
    requires k in mem' && p in mem' && i < |mem'[k]| && i < |mem'[p]| && mem'[p][i] == mem'[k][i]
    requires p in mem && p !in Reach(cfg, mem, k, 0)
    requires Sub(cfg, mem', k, 0, i) <= Sub(cfg, mem, k, 0, i) + (mem'.Keys - mem.Keys)
    ensures Branch(cfg, mem', p, 0, i) && Sub(cfg, mem', p, 0, i) == Sub(cfg, mem', k, 0, i)
  {
    hide EntCnt, Reach;
    SubTree(cfg, mem', k, 0, i);
    SubInReach(cfg, mem, k, 0, i);
  }

  lemma OwnOutside(cfg: RvmCfg, mem: Mem, k: nat, p: nat, i: nat, mem': Mem, x: nat)
    requires cfg.Valid() && Inner(cfg, 0) && Mirrors(cfg, mem, k, p) && i < EntCnt(cfg, 0)
    requires Outside(cfg, mem, k, i, mem') && x in Own(cfg, mem, p)
    ensures x in mem && x in mem' && mem'[x] == mem[x]
  {
    hide EntCnt, Reach;
    RootOutside(cfg, mem, k, p, i, mem');
    SubInReach(cfg, mem, k, 0, i);
    RootReached(cfg, mem, k);
    HalfFits(cfg);
    if x != p {
      var j := OwnWitness(cfg, mem, p, x);
      SubInReach(cfg, mem, p, 0, j);
      ReachExists(cfg, mem, p, 0);
    }
  }

  // ---- Kernel maps ----

  lemma KernelMapRoot(cfg: RvmCfg, s: Space, k: nat, va: nat, entry: nat)
    requires cfg.Valid() && Inner(cfg, 0) && Tree(cfg, s.mem, k, 0) && PoolOk(cfg, s)
    ensures var s' := MapF(cfg, s, k, 0, va, entry).0;
            var i := Index(cfg, 0, va);
            && k in s'.mem && |s'.mem[k]| == |s.mem[k]| && i < |s.mem[k]|
            && (Present(s.mem[k][i]) ==> s'.mem[k] == s.mem[k])
            && (forall j :: 0 <= j < |s.mem[k]| && j != i ==> s'.mem[k][j] == s.mem[k][j])
  {
    hide EntCnt, Index, Reach, Or, NewTable;
    var i := Index(cfg, 0, va);
    EntCntFits(cfg, 0);
    TreeTable(cfg, s.mem, k, 0);
    SubTree(cfg, s.mem, k, 0, i);
    if Present(s.mem[k][i]) {
      MapBelowRoot(cfg, s, k, va, entry);
    } else if s.pool != [] {
      NewTableKeeps(cfg, s, k, 0, i);
      NewTableRoot(cfg, s, k, i);
      MapBelowRoot(cfg, NewTable(cfg, s, k, i), k, va, entry);
    }
  }

  lemma NewTableRoot(cfg: RvmCfg, s: Space, k: nat, i: nat)
    requires cfg.Valid() && k in s.mem && i < |s.mem[k]| && s.pool != [] && PoolOk(cfg, s)
    ensures var s1 := NewTable(cfg, s, k, i);
            && k in s1.mem && |s1.mem[k]| == |s.mem[k]|
            && forall j :: 0 <= j < |s.mem[k]| && j != i ==> s1.mem[k][j] == s.mem[k][j]
  {
    hide Or;
    PoolFresh(cfg, s);
  }

  /** The walk below a present root entry leaves the root alone. */
  lemma MapBelowRoot(cfg: RvmCfg, s: Space, k: nat, va: nat, entry: nat)
    requires cfg.Valid() && Inner(cfg, 0) && Tree(cfg, s.mem, k, 0) && PoolOk(cfg, s) && k in s.mem
    requires Index(cfg, 0, va) < |s.mem[k]| && Present(s.mem[k][Index(cfg, 0, va)])
    ensures var s' := MapF(cfg, s, Child(cfg, s.mem[k][Index(cfg, 0, va)]), 1, va, entry).0;
            k in s'.mem && s'.mem[k] == s.mem[k]
  {
    hide EntCnt, Index, MapF;
    var i := Index(cfg, 0, va);
    SubTree(cfg, s.mem, k, 0, i);
    var c := Child(cfg, s.mem[k][i]);
    MapRefines(cfg, s, c, 1, va, entry);
    SubInReach(cfg, s.mem, c, 1, Index(cfg, 1, va));
    assert c in Reach(cfg, s.mem, c, 1);
  }

  /** A kernel map keeps every space intact. The space sees the page exactly if it already
      used the kernel's table for it; it does not learn of tables new under the root. */
  lemma KernelMapMirrors(cfg: RvmCfg, s: Space, k: nat, p: nat, va: nat, entry: nat)
    requires cfg.Valid() && Inner(cfg, 0) && Mirrors(cfg, s.mem, k, p) && PoolOk(cfg, s)
    ensures var s' := MapF(cfg, s, k, 0, va, entry).0;
            && Mirrors(cfg, s'.mem, k, p)
            && (forall va': nat {:trigger Lookup(cfg, s'.mem, p, 0, va')} :: Lookup(cfg, s'.mem, p, 0, va') ==
                  if Uses(cfg, s.mem, k, p, va) && Index(cfg, 0, va') == Index(cfg, 0, va)
                  then Lookup(cfg, s'.mem, k, 0, va') else Lookup(cfg, s.mem, p, 0, va'))
  {
    hide EntCnt, Index, Reach, MapF, Tree, Lookup, Sub;
    var i := Index(cfg, 0, va);
    var (s', ok) := MapF(cfg, s, k, 0, va, entry);
    MapRefines(cfg, s, k, 0, va, entry);
    KernelMapRoot(cfg, s, k, va, entry);
    assert Outside(cfg, s.mem, k, i, s'.mem);
    if Uses(cfg, s.mem, k, p, va) {
      UsedFollows(cfg, s.mem, k, p, va, s'.mem);
    } else {
      UnusedKeeps(cfg, s.mem, k, p, va, s'.mem);
    }
    KernelMapApart(cfg, s, k, p, va, entry);
    RootOutside(cfg, s.mem, k, p, i, s'.mem);
    assert TableOk(cfg, s.mem, k) by { TreeTable(cfg, s.mem, k, 0); }
    forall j: nat | Half(cfg) <= j < EntCnt(cfg, 0) && j < |s'.mem[p]|
      ensures s'.mem[p][j] == s'.mem[k][j] || s'.mem[p][j] == 0
    {
      assert s.mem[p][j] == s.mem[k][j] || s.mem[p][j] == 0;
      if j == i { AbsentIsZero(cfg, s.mem, k, i); }
    }
  }

  lemma AbsentIsZero(cfg: RvmCfg, mem: Mem, t: nat, i: nat)
    requires cfg.Valid() && Inner(cfg, 0) && Tree(cfg, mem, t, 0) && i < EntCnt(cfg, 0)
    ensures i < |mem[t]| && (mem[t][i] == 0 || Present(mem[t][i]))
  {
    SubTree(cfg, mem, t, 0, i);
  }

  lemma KernelMapApart(cfg: RvmCfg, s: Space, k: nat, p: nat, va: nat, entry: nat)
    requires cfg.Valid() && Inner(cfg, 0) && Mirrors(cfg, s.mem, k, p) && PoolOk(cfg, s)
    ensures Own(cfg, s.mem, p) !! Reach(cfg, MapF(cfg, s, k, 0, va, entry).0.mem, k, 0)
  {
    hide EntCnt, Index, Reach, MapF, Tree, Lookup, Sub, Half;
    var (s', ok) := MapF(cfg, s, k, 0, va, entry);
    MapRefines(cfg, s, k, 0, va, entry);
    ReachGrows(cfg, s, k, 0, va, entry, s', ok);
    OwnExists(cfg, s.mem, p);
  }

  lemma OwnExists(cfg: RvmCfg, mem: Mem, p: nat)
    requires cfg.Valid() && 0 < cfg.Levels() && Tree(cfg, mem, p, 0)
    ensures Own(cfg, mem, p) <= mem.Keys
  {
    hide EntCnt, Reach;
    ReachExists(cfg, mem, p, 0);
    HalfFits(cfg);
    TreeTable(cfg, mem, p, 0);
    forall x | x in Own(cfg, mem, p) && x != p ensures x in mem {
      var j := OwnWitness(cfg, mem, p, x);
      SubInReach(cfg, mem, p, 0, j);
    }
  }

  // ---- Kernel unmaps ----

  /** The table right under the kernel's root, and each one below it on the way to `va`, is
      present and has no other entry: the unmap takes it. */
  ghost predicate TakesTop(cfg: RvmCfg, mem: Mem, k: nat, va: nat)
    requires cfg.Valid() && Inner(cfg, 0)
  {
    var i := Index(cfg, 0, va);
    k in mem && i < |mem[k]| && Present(mem[k][i]) && Alone(cfg, mem, Child(cfg, mem[k][i]), 1, va)
  }

  lemma KernelUnmapRoot(cfg: RvmCfg, mem: Mem, k: nat, va: nat)
    requires cfg.Valid() && Inner(cfg, 0) && Tree(cfg, mem, k, 0)
    ensures var (mem', freed, _) := UnmapF(cfg, mem, k, 0, va);
            var i := Index(cfg, 0, va);
            && k in mem' && i < |mem[k]|
            && (TakesTop(cfg, mem, k, va) <==> Child(cfg, mem[k][i]) in freed)
            && (TakesTop(cfg, mem, k, va) ==> Present(mem[k][i]) && Child(cfg, mem[k][i]) !in mem')
            && mem'[k] == if TakesTop(cfg, mem, k, va) then mem[k][i := 0] else mem[k]
  {
    hide EntCnt, Index, Reach, Sub, Unmapped, Alone, Branch, Tree;
    var i := Index(cfg, 0, va);
    EntCntFits(cfg, 0);
    TreeTable(cfg, mem, k, 0);
    if Present(mem[k][i]) {
      UnmapUnderRoot(cfg, mem, k, va);
      var c := Child(cfg, mem[k][i]);
      var (mem1, freed1, empty1) := UnmapF(cfg, mem, c, 1, va);
      if empty1 { assert (freed1 + [c])[|freed1|] == c; }
    }
  }

  lemma UnmapUnderRoot(cfg: RvmCfg, mem: Mem, k: nat, va: nat)
    requires cfg.Valid() && Inner(cfg, 0) && Tree(cfg, mem, k, 0) && k in mem
    requires Index(cfg, 0, va) < |mem[k]| && Present(mem[k][Index(cfg, 0, va)])
    ensures var c := Child(cfg, mem[k][Index(cfg, 0, va)]);
            var (mem1, freed1, empty1) := UnmapF(cfg, mem, c, 1, va);
            && k in mem1 && mem1[k] == mem[k] && k != c && c in mem1 && c !in freed1
            && (empty1 <==> Alone(cfg, mem, c, 1, va))
  {
    hide EntCnt, Index, Reach, Sub, Alone, Branch, UnmapF, Tree;
    UnmapBelow(cfg, mem, k, 0, va);
    UnmapEmptiesIff(cfg, mem, Child(cfg, mem[k][Index(cfg, 0, va)]), 1, va);
  }

  /** A kernel unmap keeps a space intact if and only if the space does not use a table
      right under the root that this unmap frees. Otherwise the space's root still leads
      to the freed table. */
  lemma KernelUnmapMirrorsIff(cfg: RvmCfg, mem: Mem, k: nat, p: nat, va: nat)
    requires cfg.Valid() && Inner(cfg, 0) && Mirrors(cfg, mem, k, p)
    ensures var mem' := UnmapF(cfg, mem, k, 0, va).0;
            var broken := Uses(cfg, mem, k, p, va) && TakesTop(cfg, mem, k, va);
            && (Mirrors(cfg, mem', k, p) <==> !broken)
            && (broken ==> !Tree(cfg, mem', p, 0))
  {
    hide EntCnt, Index, Reach, UnmapF, Tree, Lookup, Sub, TakesTop;
    var i := Index(cfg, 0, va);
    var (mem', freed, empty) := UnmapF(cfg, mem, k, 0, va);
    UnmapRefines(cfg, mem, k, 0, va);
    KernelUnmapRoot(cfg, mem, k, va);
    UnmapOutside(cfg, mem, k, va);
    RootOutside(cfg, mem, k, p, i, mem');
    if Uses(cfg, mem, k, p, va) && TakesTop(cfg, mem, k, va) {
      Dangling(cfg, mem', p, i);
    } else {
      if Uses(cfg, mem, k, p, va) {
        UsedFollows(cfg, mem, k, p, va, mem');
      } else {
        UnusedKeeps(cfg, mem, k, p, va, mem');
      }
      ReachShrinks(cfg, mem, k, 0, va, mem', freed, empty);
      forall j: nat | Half(cfg) <= j < EntCnt(cfg, 0) && j < |mem'[p]|
        ensures mem'[p][j] == mem'[k][j] || mem'[p][j] == 0
      {
        assert mem[p][j] == mem[k][j] || mem[p][j] == 0;
      }
    }
  }

  lemma UnmapOutside(cfg: RvmCfg, mem: Mem, k: nat, va: nat)
    requires cfg.Valid() && Inner(cfg, 0) && Tree(cfg, mem, k, 0)
    ensures Outside(cfg, mem, k, Index(cfg, 0, va), UnmapF(cfg, mem, k, 0, va).0)
  {
    hide EntCnt, Index, Reach, UnmapF, Tree, Lookup, Sub;
    UnmapRefines(cfg, mem, k, 0, va);
  }

  lemma Dangling(cfg: RvmCfg, mem: Mem, p: nat, i: nat)
    requires cfg.Valid() && Inner(cfg, 0) && p in mem && i < |mem[p]| && i < EntCnt(cfg, 0)
    requires Present(mem[p][i]) && Child(cfg, mem[p][i]) !in mem
    ensures !Tree(cfg, mem, p, 0)
  {
    hide EntCnt, Reach, Sub;
    if Tree(cfg, mem, p, 0) { SubTree(cfg, mem, p, 0, i); }
  }

  /** In a kernel space without empty tables, the unmap takes the table under the root
      exactly when no other page is translated through it. */
  lemma TakesTopIff(cfg: RvmCfg, mem: Mem, k: nat, va: nat)
    requires cfg.Valid() && Inner(cfg, 0) && Tree(cfg, mem, k, 0) && NonEmpty(cfg, mem, k, 0)
    requires Index(cfg, 0, va) < |mem[k]| && Present(mem[k][Index(cfg, 0, va)])
    ensures TakesTop(cfg, mem, k, va) <==>
              forall va': nat :: Index(cfg, 0, va') == Index(cfg, 0, va) && Lookup(cfg, mem, k, 0, va') != 0 ==>
                Vpn(cfg, va') == Vpn(cfg, va)
  {
    hide EntCnt, Index, Reach, UnmapF, Tree, Lookup, Sub, TakesTop, NonEmpty, Vpn;
    var i := Index(cfg, 0, va);
    var mem' := UnmapF(cfg, mem, k, 0, va).0;
    UnmapRefines(cfg, mem, k, 0, va);
    KernelUnmapRoot(cfg, mem, k, va);
    if TakesTop(cfg, mem, k, va) {
      forall va': nat | Index(cfg, 0, va') == i && Lookup(cfg, mem, k, 0, va') != 0
        ensures Vpn(cfg, va') == Vpn(cfg, va)
      {
        NotPresent(cfg, mem', k, 0, va');
        SamePage(cfg, va, va');
      }
    } else {
      UnmapNonEmpty(cfg, mem, k, 0, va);
      var va' := PageBelow(cfg, mem', k, i);
      SamePage(cfg, va, va');
    }
  }

  /** The failing case: the kernel maps one upper-half page, a space is created, and the
      kernel unmaps the page. The space's root then leads to a table that was freed. */
  lemma StaleRoot(cfg: RvmCfg, s: Space, k: nat, va: nat, entry: nat)
    requires cfg.Valid() && Inner(cfg, 0) && TableOk(cfg, s.mem, k) && AllZero(s.mem[k], EntCnt(cfg, 0))
             && PoolOk(cfg, s)
    requires Index(cfg, 0, va) >= Half(cfg) && entry != 0
    requires MapF(cfg, s, k, 0, va, entry).1 && MapF(cfg, s, k, 0, va, entry).0.pool != []
    ensures var s1 := MapF(cfg, s, k, 0, va, entry).0;
            k in s1.mem && !Tree(cfg, UnmapF(cfg, Fork(cfg, s1, k).mem, k, 0, va).0, s1.pool[0], 0)
  {
    ZeroTree(cfg, s.mem, k, 0);
    ZeroNonEmpty(cfg, s.mem, k);
    hide EntCnt, Index, Reach, UnmapF, Tree, Sub, MapF, NonEmpty, Half, Vpn, TakesTop;
    MapRefines(cfg, s, k, 0, va, entry);
    MapNonEmpty(cfg, s, k, 0, va, entry);
    var s1 := MapF(cfg, s, k, 0, va, entry).0;
    TreeTable(cfg, s1.mem, k, 0);
    ForkTranslates(cfg, s1, k);
    ForkMirrors(cfg, s1, k);
    var s2, p := Fork(cfg, s1, k), s1.pool[0];
    SelfSame(cfg, va);
    assert Lookup(cfg, s2.mem, k, 0, va) == entry;
    ForkedNonEmpty(cfg, s1, k);
    forall va': nat | Lookup(cfg, s2.mem, k, 0, va') != 0 ensures Vpn(cfg, va') == Vpn(cfg, va) {
      assert Lookup(cfg, s1.mem, k, 0, va') != 0;
      SamePage(cfg, va, va');
    }
    PoolFresh(cfg, s1);
    assert Uses(cfg, s2.mem, k, p, va);
    TakesTopIff(cfg, s2.mem, k, va);
    KernelUnmapMirrorsIff(cfg, s2.mem, k, p, va);
  }

  lemma SelfSame(cfg: RvmCfg, va: nat)
    requires cfg.Valid()
    ensures SameFrom(cfg, 0, va, va)
  {
    hide Index;
  }

  lemma ForkedNonEmpty(cfg: RvmCfg, s: Space, k: nat)
    requires cfg.Valid() && 0 < cfg.Levels() && Tree(cfg, s.mem, k, 0) && NonEmpty(cfg, s.mem, k, 0) && PoolOk(cfg, s)
    requires k in s.mem && s.pool != []
    ensures NonEmpty(cfg, Fork(cfg, s, k).mem, k, 0)
  {
    hide EntCnt, Index, Reach, Tree, NonEmpty;
    ReachExists(cfg, s.mem, k, 0);
    PoolFresh(cfg, s);
    FrameNonEmpty(cfg, s.mem, Fork(cfg, s, k).mem, k, 0);
  }

  // ---- The kernel and a space, interleaved ----

  lemma ForkMirrors(cfg: RvmCfg, s: Space, k: nat)
    requires cfg.Valid() && 0 < cfg.Levels() && Tree(cfg, s.mem, k, 0) && PoolOk(cfg, s) && s.pool != []
    ensures Mirrors(cfg, Fork(cfg, s, k).mem, k, s.pool[0])
  {
    TreeTable(cfg, s.mem, k, 0);
    ForkTranslates(cfg, s, k);
    hide Shares, Lookup, Tree, Index, EntCnt;
    PoolFresh(cfg, s);
  }

  lemma LowMapMirrors(cfg: RvmCfg, s: Space, k: nat, p: nat, va: nat, entry: nat)
    requires cfg.Valid() && Inner(cfg, 0) && Mirrors(cfg, s.mem, k, p) && PoolOk(cfg, s)
             && Index(cfg, 0, va) < Half(cfg)
    ensures Mirrors(cfg, MapF(cfg, s, p, 0, va, entry).0.mem, k, p)
  {
    hide EntCnt, Index, Reach, MapF, Tree, Lookup, Sub, Half;
    var s' := MapF(cfg, s, p, 0, va, entry).0;
    LowMapShares(cfg, s, k, p, va, entry);
    KernelMapRoot(cfg, s, p, va, entry);
    MapRefines(cfg, s, p, 0, va, entry);
    KernelRootApart(cfg, s.mem, k, p, va);
    forall j: nat | Half(cfg) <= j < EntCnt(cfg, 0) && j < |s'.mem[p]|
      ensures s'.mem[p][j] == s'.mem[k][j] || s'.mem[p][j] == 0
    {
      assert s.mem[p][j] == s.mem[k][j] || s.mem[p][j] == 0;
    }
  }

  lemma KernelRootApart(cfg: RvmCfg, mem: Mem, k: nat, p: nat, va: nat)
    requires cfg.Valid() && Inner(cfg, 0) && Shares(cfg, mem, k, p) && Index(cfg, 0, va) < Half(cfg)
    ensures k in mem && p in mem && k !in Way(cfg, mem, p, 0, va)
  {
    hide EntCnt, Index, Reach, Lookup, Half;
    RootReached(cfg, mem, k);
    SubInOwn(cfg, mem, p, Index(cfg, 0, va));
    TreeTable(cfg, mem, k, 0);
  }

  lemma LowUnmapMirrors(cfg: RvmCfg, mem: Mem, k: nat, p: nat, va: nat)
    requires cfg.Valid() && Inner(cfg, 0) && Mirrors(cfg, mem, k, p) && Index(cfg, 0, va) < Half(cfg)
    ensures Mirrors(cfg, UnmapF(cfg, mem, p, 0, va).0, k, p)
  {
    hide EntCnt, Index, Reach, UnmapF, Tree, Lookup, Sub, Half, TakesTop;
    var (mem', freed, empty) := UnmapF(cfg, mem, p, 0, va);
    LowUnmapShares(cfg, mem, k, p, va);
    KernelUnmapRoot(cfg, mem, p, va);
    UnmapRefines(cfg, mem, p, 0, va);
    KernelRootApart(cfg, mem, k, p, va);
    TreeTable(cfg, mem', k, 0);
    forall j: nat | Half(cfg) <= j < EntCnt(cfg, 0) && j < |mem'[p]|
      ensures mem'[p][j] == mem'[k][j] || mem'[p][j] == 0
    {
      assert mem[p][j] == mem[k][j] || mem[p][j] == 0;
    }
  }

  /** An edit through the space's root or through the kernel's. */
  datatype Edit = Inside(op: PageOp) | Kernel(op: PageOp)

  function Apply(cfg: RvmCfg, s: Space, k: nat, p: nat, e: Edit): Space
    requires cfg.Valid() && 0 < cfg.Levels()
  {
    match e
    case Inside(op) => Exec(cfg, s, p, op).0
    case Kernel(op) => Exec(cfg, s, k, op).0
  }

  /** Own edits stay in the lower half; kernel unmaps free no table that the space uses. */
  ghost predicate Proper(cfg: RvmCfg, s: Space, k: nat, p: nat, e: Edit)
    requires cfg.Valid() && Inner(cfg, 0)
  {
    match e
    case Inside(op) => Index(cfg, 0, op.va) < Half(cfg)
    case Kernel(op) => op.Unmap? ==> !(Uses(cfg, s.mem, k, p, op.va) && TakesTop(cfg, s.mem, k, op.va))
  }

  lemma ApplyMirrors(cfg: RvmCfg, s: Space, k: nat, p: nat, e: Edit)
    requires cfg.Valid() && Inner(cfg, 0) && Mirrors(cfg, s.mem, k, p) && PoolOk(cfg, s) && Proper(cfg, s, k, p, e)
    ensures var s' := Apply(cfg, s, k, p, e);
            Mirrors(cfg, s'.mem, k, p) && PoolOk(cfg, s') && Elems(s'.pool) + s'.mem.Keys == Elems(s.pool) + s.mem.Keys
  {
    hide MapF, UnmapF, Index, Half, Uses, TakesTop, Tree, PoolOk, Reach, Lookup;
    match e
    case Inside(Map(va, entry)) =>
      LowMapMirrors(cfg, s, k, p, va, entry);
      MapPage(cfg, s, p, va, entry, 0);
      MapConserves(cfg, s, p, va, entry);
    case Inside(Unmap(va)) =>
      LowUnmapMirrors(cfg, s.mem, k, p, va);
      UnmapPageKeeps(cfg, s, p, va);
      UnmapConserves(cfg, s, p, va);
    case Kernel(Map(va, entry)) =>
      KernelMapMirrors(cfg, s, k, p, va, entry);
      MapPage(cfg, s, k, va, entry, 0);
      MapConserves(cfg, s, k, va, entry);
    case Kernel(Unmap(va)) =>
      KernelUnmapMirrorsIff(cfg, s.mem, k, p, va);
      UnmapPageKeeps(cfg, s, k, va);
      UnmapConserves(cfg, s, k, va);
  }

  ghost predicate History(cfg: RvmCfg, ss: seq<Space>, es: seq<Edit>, k: nat, p: nat)
    requires cfg.Valid() && Inner(cfg, 0)
  {
    && |ss| == |es| + 1
    && forall n {:trigger es[n]} :: 0 <= n < |es| ==>
          Proper(cfg, ss[n], k, p, es[n]) && ss[n + 1] == Apply(cfg, ss[n], k, p, es[n])
  }

  /** Through every interleaving of edits by the space and by the kernel, as long as no
      kernel unmap frees a table the space uses: both keep their trees, the space's own
      tables stay apart from the kernel's, no frame is lost, and dropping the space at any
      point frees exactly its own tables and changes no kernel translation. */
  lemma {:induction false} HistoryMirrors(cfg: RvmCfg, ss: seq<Space>, es: seq<Edit>, k: nat, p: nat, n: nat)
    requires cfg.Valid() && Inner(cfg, 0) && History(cfg, ss, es, k, p) && n <= |es|
    requires Mirrors(cfg, ss[0].mem, k, p) && PoolOk(cfg, ss[0])
    ensures Mirrors(cfg, ss[n].mem, k, p) && PoolOk(cfg, ss[n])
    ensures Elems(ss[n].pool) + ss[n].mem.Keys == Elems(ss[0].pool) + ss[0].mem.Keys
    ensures DropSpace(cfg, ss[n], p).mem == ss[n].mem - Own(cfg, ss[n].mem, p)
    ensures SameLookups(cfg, ss[n].mem, DropSpace(cfg, ss[n], p).mem, k, 0)
    decreases n
  {
    hide Proper, Apply, Tree, PoolOk, SameLookups, DropList;
    if n > 0 {
      HistoryMirrors(cfg, ss, es, k, p, n - 1);
      assert Proper(cfg, ss[n - 1], k, p, es[n - 1]) && ss[n - 1 + 1] == Apply(cfg, ss[n - 1], k, p, es[n - 1]);
      ApplyMirrors(cfg, ss[n - 1], k, p, es[n - 1]);
    }
    DropFreesOwn(cfg, ss[n].mem, k, p);
    var list := DropList(cfg, ss[n].mem, p, 0);
    assert (set x | x in list) == Elems(list);
  }
}
