/** Whole runs of maps and unmaps refine updates of a flat map from page numbers to
    entries, and keep every table below the root in use. */
module PageRun {
  import opened Align
  import opened Bits
  import opened PageCfg
  import opened PageTree
  import opened PageMap
  import opened PageRange
  import opened PagePrune

  datatype PageOp = Map(va: nat, entry: nat) | Unmap(va: nat)

  function Exec(cfg: RvmCfg, s: Space, root: nat, op: PageOp): (Space, bool)
    requires cfg.Valid() && 0 < cfg.Levels()
  {
    match op
    case Map(va, entry) => MapF(cfg, s, root, 0, va, entry)
    case Unmap(va) => (UnmapPage(cfg, s, root, va), true)
  }

  /** Runs the operations in order; the flag tells whether none of them failed. */
  function Run(cfg: RvmCfg, s: Space, root: nat, ops: seq<PageOp>): (Space, bool)
    requires cfg.Valid() && 0 < cfg.Levels()
    decreases |ops|
  {
    if ops == [] then (s, true)
    else
      var (s1, ok) := Exec(cfg, s, root, ops[0]);
      var (s2, oks) := Run(cfg, s1, root, ops[1..]);
      (s2, ok && oks)
  }

  /** The flat map after the same operations; a failed map does not count. */
  function Flat(cfg: RvmCfg, s: Space, root: nat, f: map<nat, nat>, ops: seq<PageOp>): map<nat, nat>
    requires cfg.Valid() && 0 < cfg.Levels()
    decreases |ops|
  {
    if ops == [] then f
    else
      var (s1, ok) := Exec(cfg, s, root, ops[0]);
      Flat(cfg, s1, root, FlatStep(cfg, f, ops[0], ok), ops[1..])
  }

  function FlatStep(cfg: RvmCfg, f: map<nat, nat>, op: PageOp, ok: bool): map<nat, nat>
    requires cfg.Valid()
  {
    match op
    case Map(va, entry) => if ok then f[Vpn(cfg, va) := entry] else f
    case Unmap(va) => f - {Vpn(cfg, va)}
  }

  /** The tables below `root` translate exactly as `f` says. */
  ghost predicate Denotes(cfg: RvmCfg, mem: Mem, root: nat, f: map<nat, nat>)
    requires cfg.Valid() && 0 < cfg.Levels()
  {
    forall va: nat {:trigger Lookup(cfg, mem, root, 0, va)} ::
      Lookup(cfg, mem, root, 0, va) == if Vpn(cfg, va) in f then f[Vpn(cfg, va)] else 0
  }

  lemma ExecRefines(cfg: RvmCfg, s: Space, root: nat, f: map<nat, nat>, op: PageOp)
    requires cfg.Valid() && 0 < cfg.Levels() && Tree(cfg, s.mem, root, 0) && PoolOk(cfg, s)
             && Denotes(cfg, s.mem, root, f)
    ensures var (s', ok) := Exec(cfg, s, root, op);
            Tree(cfg, s'.mem, root, 0) && PoolOk(cfg, s') && Denotes(cfg, s'.mem, root, FlatStep(cfg, f, op, ok))
  {
    hide MapF, UnmapPage, Lookup, Vpn, Tree, PoolOk;
    var (s', ok) := Exec(cfg, s, root, op);
    match op
    case Map(va, entry) =>
      MapPage(cfg, s, root, va, entry, 0);
      forall va': nat ensures Lookup(cfg, s'.mem, root, 0, va') ==
                                var g := FlatStep(cfg, f, op, ok); if Vpn(cfg, va') in g then g[Vpn(cfg, va')] else 0
      {
        MapPage(cfg, s, root, va, entry, va');
      }
    case Unmap(va) =>
      UnmapPageKeeps(cfg, s, root, va);
      forall va': nat ensures Lookup(cfg, s'.mem, root, 0, va') ==
                                var g := FlatStep(cfg, f, op, ok); if Vpn(cfg, va') in g then g[Vpn(cfg, va')] else 0
      {
        SamePage(cfg, va, va');
      }
  }

  /** Every run refines the flat map, for every page size and address width. */
  lemma {:induction false} RunRefines(cfg: RvmCfg, s: Space, root: nat, f: map<nat, nat>, ops: seq<PageOp>)
    requires cfg.Valid() && 0 < cfg.Levels() && Tree(cfg, s.mem, root, 0) && PoolOk(cfg, s)
             && Denotes(cfg, s.mem, root, f)
    ensures var s' := Run(cfg, s, root, ops).0;
            Tree(cfg, s'.mem, root, 0) && PoolOk(cfg, s') && Denotes(cfg, s'.mem, root, Flat(cfg, s, root, f, ops))
    decreases |ops|
  {
    hide Exec, Tree, PoolOk, Denotes, FlatStep;
    if ops != [] {
      ExecRefines(cfg, s, root, f, ops[0]);
      var (s1, ok) := Exec(cfg, s, root, ops[0]);
      RunRefines(cfg, s1, root, FlatStep(cfg, f, ops[0], ok), ops[1..]);
    }
  }

  ghost predicate NonZero(ops: seq<PageOp>) {
    forall i :: 0 <= i < |ops| && ops[i].Map? ==> ops[i].entry != 0
  }

  /** If no map fails, no table below the root is ever empty. */
  lemma {:induction false} RunNonEmpty(cfg: RvmCfg, s: Space, root: nat, ops: seq<PageOp>)
    requires cfg.Valid() && 0 < cfg.Levels() && Tree(cfg, s.mem, root, 0) && PoolOk(cfg, s)
             && NonEmpty(cfg, s.mem, root, 0)
    requires NonZero(ops) && Run(cfg, s, root, ops).1
    ensures var s' := Run(cfg, s, root, ops).0;
            Tree(cfg, s'.mem, root, 0) && PoolOk(cfg, s') && NonEmpty(cfg, s'.mem, root, 0)
    decreases |ops|
  {
    hide MapF, UnmapF, Tree, PoolOk, NonEmpty, Lookup;
    if ops != [] {
      var (s1, ok) := Exec(cfg, s, root, ops[0]);
      match ops[0] {
        case Map(va, entry) =>
          assert ops[0].entry != 0;
          MapPage(cfg, s, root, va, entry, 0);
          MapNonEmpty(cfg, s, root, 0, va, entry);
        case Unmap(va) =>
          UnmapPageKeeps(cfg, s, root, va);
          UnmapNonEmpty(cfg, s.mem, root, 0, va);
      }
      RunNonEmpty(cfg, s1, root, ops[1..]);
    }
  }

  // ---- No table is lost ----

  /** Tables outside the tree stay what they are, and every frame is still either a table
      or in the pool. */
  ghost predicate Conserves(cfg: RvmCfg, s: Space, s': Space, root: nat)
    requires cfg.Valid() && 0 < cfg.Levels()
  {
    && s'.mem.Keys - Reach(cfg, s'.mem, root, 0) == s.mem.Keys - Reach(cfg, s.mem, root, 0)
    && Elems(s'.pool) + s'.mem.Keys == Elems(s.pool) + s.mem.Keys
  }

  lemma MapConserves(cfg: RvmCfg, s: Space, root: nat, va: nat, entry: nat)
    requires cfg.Valid() && 0 < cfg.Levels() && Tree(cfg, s.mem, root, 0) && PoolOk(cfg, s)
    ensures Conserves(cfg, s, MapF(cfg, s, root, 0, va, entry).0, root)
  {
    hide MapF, Reach, Sub, Tree, Lookup;
    var (s', ok) := MapF(cfg, s, root, 0, va, entry);
    MapRefines(cfg, s, root, 0, va, entry);
    ReachGrows(cfg, s, root, 0, va, entry, s', ok);
    ReachExists(cfg, s.mem, root, 0);
    var n := |s.pool| - |s'.pool|;
    assert s.pool == s.pool[..n] + s.pool[n..];
  }

  lemma UnmapConserves(cfg: RvmCfg, s: Space, root: nat, va: nat)
    requires cfg.Valid() && 0 < cfg.Levels() && Tree(cfg, s.mem, root, 0)
    ensures Conserves(cfg, s, UnmapPage(cfg, s, root, va), root)
  {
    hide UnmapF, Reach, Tree, Lookup, Index;
    var (mem, freed, empty) := UnmapF(cfg, s.mem, root, 0, va);
    UnmapRefines(cfg, s.mem, root, 0, va);
    ReachShrinks(cfg, s.mem, root, 0, va, mem, freed, empty);
    ReachExists(cfg, s.mem, root, 0);
    SubInReach(cfg, s.mem, root, 0, Index(cfg, 0, va));
    assert Elems(s.pool + freed) == Elems(s.pool) + Elems(freed);
  }

  /** Over every run, failed maps included, no table outside the tree is touched and no
      frame is lost. */
  lemma {:induction false} RunConserves(cfg: RvmCfg, s: Space, root: nat, ops: seq<PageOp>)
    requires cfg.Valid() && 0 < cfg.Levels() && Tree(cfg, s.mem, root, 0) && PoolOk(cfg, s)
    ensures var s' := Run(cfg, s, root, ops).0;
            Tree(cfg, s'.mem, root, 0) && PoolOk(cfg, s') && Conserves(cfg, s, s', root)
    decreases |ops|
  {
    hide MapF, UnmapPage, Tree, PoolOk, Reach, Lookup;
    if ops != [] {
      var (s1, ok) := Exec(cfg, s, root, ops[0]);
      match ops[0] {
        case Map(va, entry) =>
          MapPage(cfg, s, root, va, entry, 0);
          MapConserves(cfg, s, root, va, entry);
        case Unmap(va) =>
          UnmapPageKeeps(cfg, s, root, va);
          UnmapConserves(cfg, s, root, va);
      }
      RunConserves(cfg, s1, root, ops[1..]);
    }
  }

  lemma BagOf(xs: seq<nat>, ys: seq<nat>, more: set<nat>)
    requires Distinct(xs) && Distinct(ys) && Elems(xs) == Elems(ys) + more && Elems(ys) !! more
    ensures multiset(xs) == multiset(ys) + multiset(more)
  {
    forall x: nat ensures multiset(xs)[x] == (multiset(ys) + multiset(more))[x] {
      OnceIn(xs, x);
      OnceIn(ys, x);
      assert x in xs <==> x in Elems(xs);
      assert x in ys <==> x in Elems(ys);
    }
  }

  lemma {:induction false} OnceIn(xs: seq<nat>, x: nat)
    requires Distinct(xs)
    ensures multiset(xs)[x] == if x in xs then 1 else 0
  {
    if xs != [] {
      var n := |xs| - 1;
      assert xs == xs[..n] + [xs[n]];
      OnceIn(xs[..n], x);
    }
  }

  lemma PoolDistinct(cfg: RvmCfg, s: Space)
    requires PoolOk(cfg, s)
    ensures Distinct(s.pool) && Elems(s.pool) !! s.mem.Keys
  {}

  /** A run without failed maps that ends with nothing mapped has returned every table
      but the root: what is left is the root and the tables outside the tree, and the
      pool has gained exactly the other tables of the tree it started with. */
  lemma RunFreesAll(cfg: RvmCfg, s: Space, root: nat, f: map<nat, nat>, ops: seq<PageOp>)
    requires cfg.Valid() && 0 < cfg.Levels() && Tree(cfg, s.mem, root, 0) && PoolOk(cfg, s)
             && NonEmpty(cfg, s.mem, root, 0)
    requires Denotes(cfg, s.mem, root, f)
    requires NonZero(ops) && Run(cfg, s, root, ops).1 && Flat(cfg, s, root, f, ops) == map[]
    ensures var s' := Run(cfg, s, root, ops).0;
            && s'.mem.Keys == s.mem.Keys - Reach(cfg, s.mem, root, 0) + {root}
            && multiset(s'.pool) == multiset(s.pool) + multiset(Reach(cfg, s.mem, root, 0) - {root})
  {
    hide Run, Flat, Tree, PoolOk, NonEmpty, Reach, Lookup;
    var s', tree := Run(cfg, s, root, ops).0, Reach(cfg, s.mem, root, 0);
    RunRefines(cfg, s, root, f, ops);
    RunNonEmpty(cfg, s, root, ops);
    RunConserves(cfg, s, root, ops);
    AllUnmappedAllFreed(cfg, s'.mem, root);
    TreeTable(cfg, s'.mem, root, 0);
    RootReached(cfg, s.mem, root);
    ReachExists(cfg, s.mem, root, 0);
    assert s'.mem.Keys == (s'.mem.Keys - {root}) + {root};
    PoolDistinct(cfg, s);
    PoolDistinct(cfg, s');
    BagOf(s'.pool, s.pool, tree - {root});
  }

  lemma RootReached(cfg: RvmCfg, mem: Mem, root: nat)
    requires cfg.Valid() && 0 < cfg.Levels()
    ensures root in Reach(cfg, mem, root, 0)
  {}
}
