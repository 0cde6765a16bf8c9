/** The entries that link tables: every one carries exactly the configured flag bits, through
    every operation and over whole runs. */
module PageFlags {
  import opened Align
  import opened Bits
  import opened PageCfg
  import opened PageTree
  import opened PageMap
  import opened PageRange
  import opened PagePrune
  import opened PageSpace
  import opened PageRun
  import opened PageNeed

  /** Entry `i` links a table with the configured bits below the page size. */
  ghost predicate LinkFlagged(cfg: RvmCfg, mem: Mem, t: nat, l: nat, i: nat)
    requires cfg.Valid() && Inner(cfg, l)
    decreases cfg.Levels() - l, 0
  {
    t in mem && i < |mem[t]| && Present(mem[t][i]) ==>
      mem[t][i] % cfg.PageSize() == cfg.next && Flagged(cfg, mem, Child(cfg, mem[t][i]), l + 1)
  }

  /** So do all links from `t` downwards. */
  ghost predicate Flagged(cfg: RvmCfg, mem: Mem, t: nat, l: nat)
    requires cfg.Valid() && l < cfg.Levels()
    decreases cfg.Levels() - l, 1
  {
    Inner(cfg, l) ==>
      forall i: nat {:trigger LinkFlagged(cfg, mem, t, l, i)} :: i < EntCnt(cfg, l) ==> LinkFlagged(cfg, mem, t, l, i)
  }

  lemma {:induction false} FrameFlagged(cfg: RvmCfg, mem: Mem, mem': Mem, t: nat, l: nat)
    requires cfg.Valid() && l < cfg.Levels() && Tree(cfg, mem, t, l) && Agree(mem, mem', Reach(cfg, mem, t, l))
    requires Flagged(cfg, mem, t, l)
    ensures Flagged(cfg, mem', t, l)
    decreases cfg.Levels() - l
  {
    hide EntCnt;
    assert t in Reach(cfg, mem, t, l);
    if Inner(cfg, l) {
      forall i: nat | i < EntCnt(cfg, l) ensures LinkFlagged(cfg, mem', t, l, i) {
        assert LinkFlagged(cfg, mem, t, l, i);
        SubTree(cfg, mem, t, l, i);
        SubInReach(cfg, mem, t, l, i);
        if Present(mem[t][i]) { FrameFlagged(cfg, mem, mem', Child(cfg, mem[t][i]), l + 1); }
      }
    }
  }

  /** Only entry `i` of `t` and its subtree changed, and that link is flagged. */
  lemma FlaggedUp(cfg: RvmCfg, mem: Mem, mem': Mem, t: nat, l: nat, i: nat)
    requires cfg.Valid() && Inner(cfg, l) && Tree(cfg, mem, t, l) && Flagged(cfg, mem, t, l) && i < EntCnt(cfg, l)
    requires t in mem' && |mem'[t]| == |mem[t]|
    requires forall j: nat :: j < |mem[t]| && j != i ==> mem'[t][j] == mem[t][j]
    requires LinkFlagged(cfg, mem', t, l, i)
    requires forall j: nat {:trigger Sub(cfg, mem, t, l, j)} :: j < EntCnt(cfg, l) && j != i ==>
               Agree(mem, mem', Sub(cfg, mem, t, l, j))
    ensures Flagged(cfg, mem', t, l)
  {
    hide EntCnt, Reach;
    forall j: nat | j < EntCnt(cfg, l) ensures LinkFlagged(cfg, mem', t, l, j) {
      if j != i {
        assert LinkFlagged(cfg, mem, t, l, j);
        SubTree(cfg, mem, t, l, j);
        assert Agree(mem, mem', Sub(cfg, mem, t, l, j));
        if Present(mem[t][j]) { FrameFlagged(cfg, mem, mem', Child(cfg, mem[t][j]), l + 1); }
      }
    }
  }

  lemma ZeroFlagged(cfg: RvmCfg, mem: Mem, t: nat, l: nat)
    requires cfg.Valid() && l < cfg.Levels() && t in mem && forall q: nat :: q < |mem[t]| ==> mem[t][q] == 0
    ensures Flagged(cfg, mem, t, l)
  {
    hide EntCnt;
  }

  /** A fresh link carries the configured bits. */
  lemma NewLink(cfg: RvmCfg, next: nat)
    requires cfg.Valid() && next % cfg.PageSize() == 0
    ensures Or(next, cfg.next) % cfg.PageSize() == cfg.next
  {
    hide Or, Pow2;
    OrHigh(next, cfg.next, cfg.pshift);
    DivUnique(cfg.next, cfg.PageSize(), 0, cfg.next);
  }

  /** What the table of a new link looks like after the map that made it. */
  lemma NewLinkStays(cfg: RvmCfg, s: Space, t: nat, l: nat, va: nat, entry: nat)
    requires cfg.Valid() && Inner(cfg, l) && Tree(cfg, s.mem, t, l) && PoolOk(cfg, s) && s.pool != []
    requires Index(cfg, l, va) < |s.mem[t]| && !Present(s.mem[t][Index(cfg, l, va)])
    ensures var mem', i := MapF(cfg, s, t, l, va, entry).0.mem, Index(cfg, l, va);
            t in mem' && i < |mem'[t]| && mem'[t][i] % cfg.PageSize() == cfg.next
  {
    hide EntCnt, Index, Reach, Or, Sub, Lookup;
    var i := Index(cfg, l, va);
    var s1, c := NewTable(cfg, s, t, i), s.pool[0];
    NewTableKeeps(cfg, s, t, l, i);
    SubTree(cfg, s1.mem, t, l, i);
    SubIs(cfg, s1.mem, t, l, i);
    PoolFresh(cfg, s);
    NewLink(cfg, c);
    hide NewTable;
    MapPasses(cfg, s1, t, l + 1, va, entry, c);
  }

  /** `map_page` keeps all links flagged, also when it fails. */
  lemma {:induction false} MapFlagged(cfg: RvmCfg, s: Space, t: nat, l: nat, va: nat, entry: nat)
    requires cfg.Valid() && l < cfg.Levels() && Tree(cfg, s.mem, t, l) && PoolOk(cfg, s) && Flagged(cfg, s.mem, t, l)
    ensures Flagged(cfg, MapF(cfg, s, t, l, va, entry).0.mem, t, l)
    decreases cfg.Levels() - l
  {
    hide EntCnt, Index, NewTable, Reach, PoolOk, Sub, Lookup, MapF;
    var i := Index(cfg, l, va);
    EntCntFits(cfg, l);
    if Inner(cfg, l) {
      var s' := MapF(cfg, s, t, l, va, entry).0;
      MapOthers(cfg, s, t, l, va, entry);
      MapOwnTable(cfg, s, t, l, va, entry);
      if Present(s.mem[t][i]) {
        var c := MapInto(cfg, s, t, l, va, entry);
        assert LinkFlagged(cfg, s.mem, t, l, i);
        MapFlagged(cfg, s, c, l + 1, va, entry);
        FlaggedUp(cfg, s.mem, s'.mem, t, l, i);
      } else if s.pool == [] {
        MapFails(cfg, s, t, l, va, entry);
      } else {
        var s1, c := MapNew(cfg, s, t, l, va, entry);
        NewLinkStays(cfg, s, t, l, va, entry);
        ZeroFlagged(cfg, s1.mem, c, l + 1);
        MapFlagged(cfg, s1, c, l + 1, va, entry);
        FlaggedUp(cfg, s.mem, s'.mem, t, l, i);
      }
    }
  }

  lemma MapFails(cfg: RvmCfg, s: Space, t: nat, l: nat, va: nat, entry: nat)
    requires cfg.Valid() && Inner(cfg, l) && t in s.mem && s.pool == []
    requires Index(cfg, l, va) < |s.mem[t]| && !Present(s.mem[t][Index(cfg, l, va)])
    ensures MapF(cfg, s, t, l, va, entry).0 == s
  {}

  /** `unmap_page` keeps all links flagged. */
  lemma {:induction false} UnmapFlagged(cfg: RvmCfg, mem: Mem, t: nat, l: nat, va: nat)
    requires cfg.Valid() && l < cfg.Levels() && Tree(cfg, mem, t, l) && Flagged(cfg, mem, t, l)
    ensures Flagged(cfg, UnmapF(cfg, mem, t, l, va).0, t, l)
    decreases cfg.Levels() - l
  {
    hide EntCnt, Index, Reach, Unmapped;
    var i := Index(cfg, l, va);
    EntCntFits(cfg, l);
    if Inner(cfg, l) && Present(mem[t][i]) {
      var c := Child(cfg, mem[t][i]);
      SubTree(cfg, mem, t, l, i);
      assert LinkFlagged(cfg, mem, t, l, i);
      UnmapFlagged(cfg, mem, c, l + 1, va);
      UnmapRefines(cfg, mem, c, l + 1, va);
      var (mem1, freed, empty) := UnmapF(cfg, mem, c, l + 1, va);
      UnmapFrame(cfg, mem, t, l, va, mem1, freed, empty);
      if empty {
        FlaggedUp(cfg, mem, SetEntry(mem1, t, i, 0) - {c}, t, l, i);
      } else {
        FlaggedUp(cfg, mem, mem1, t, l, i);
      }
    }
  }

  /** Every run of maps and unmaps keeps all links flagged. */
  lemma {:induction false} RunFlagged(cfg: RvmCfg, s: Space, root: nat, ops: seq<PageOp>)
    requires cfg.Valid() && 0 < cfg.Levels() && Tree(cfg, s.mem, root, 0) && PoolOk(cfg, s)
    requires Flagged(cfg, s.mem, root, 0)
    ensures Flagged(cfg, Run(cfg, s, root, ops).0.mem, root, 0)
    decreases |ops|
  {
    hide MapF, UnmapF, Tree, PoolOk, Flagged, Lookup;
    if ops != [] {
      match ops[0] {
        case Map(va, entry) =>
          MapPage(cfg, s, root, va, entry, 0);
          MapFlagged(cfg, s, root, 0, va, entry);
        case Unmap(va) =>
          UnmapPageKeeps(cfg, s, root, va);
          UnmapFlagged(cfg, s.mem, root, 0, va);
      }
      RunFlagged(cfg, Exec(cfg, s, root, ops[0]).0, root, ops[1..]);
    }
  }

  /** A new space takes the kernel's links over as they are. */
  lemma ForkFlagged(cfg: RvmCfg, s: Space, k: nat)
    requires cfg.Valid() && 0 < cfg.Levels() && Tree(cfg, s.mem, k, 0) && PoolOk(cfg, s) && s.pool != []
    requires Flagged(cfg, s.mem, k, 0)
    ensures Flagged(cfg, Fork(cfg, s, k).mem, k, 0) && Flagged(cfg, Fork(cfg, s, k).mem, s.pool[0], 0)
  {
    hide EntCnt, Half, Reach, Tree;
    TreeTable(cfg, s.mem, k, 0);
    var s', p := Fork(cfg, s, k), s.pool[0];
    PoolFresh(cfg, s);
    ReachExists(cfg, s.mem, k, 0);
    FrameFlagged(cfg, s.mem, s'.mem, k, 0);
    if Inner(cfg, 0) {
      forall i: nat | i < EntCnt(cfg, 0) ensures LinkFlagged(cfg, s'.mem, p, 0, i) {
        assert LinkFlagged(cfg, s'.mem, k, 0, i);
      }
    }
  }
}
