/** No empty tables: which operations keep every table below the root in use, and that
    unmapping everything then frees all of them. */
module PagePrune {
  import opened Align
  import opened Bits
  import opened PageCfg
  import opened PageTree
  import opened PageMap

  ghost predicate HasEntry(cfg: RvmCfg, mem: Mem, t: nat, l: nat)
    requires cfg.Valid() && l < cfg.Levels()
  {
    t in mem && exists j: nat :: j < EntCnt(cfg, l) && j < |mem[t]| && mem[t][j] != 0
  }

  ghost predicate InUse(cfg: RvmCfg, mem: Mem, t: nat, l: nat, i: nat)
    requires cfg.Valid() && Inner(cfg, l)
    decreases cfg.Levels() - l, 0
  {
    t in mem && i < |mem[t]| && Present(mem[t][i]) ==>
      HasEntry(cfg, mem, Child(cfg, mem[t][i]), l + 1) && NonEmpty(cfg, mem, Child(cfg, mem[t][i]), l + 1)
  }

  /** Every table below `t` has an entry. */
  ghost predicate NonEmpty(cfg: RvmCfg, mem: Mem, t: nat, l: nat)
    requires cfg.Valid() && l < cfg.Levels()
    decreases cfg.Levels() - l, 1
  {
    Inner(cfg, l) ==>
      forall i: nat {:trigger InUse(cfg, mem, t, l, i)} :: i < EntCnt(cfg, l) ==> InUse(cfg, mem, t, l, i)
  }

  lemma {:induction false} FrameNonEmpty(cfg: RvmCfg, mem: Mem, mem': Mem, t: nat, l: nat)
    requires cfg.Valid() && l < cfg.Levels() && Tree(cfg, mem, t, l) && Agree(mem, mem', Reach(cfg, mem, t, l))
    requires NonEmpty(cfg, mem, t, l)
    ensures NonEmpty(cfg, mem', t, l)
    ensures HasEntry(cfg, mem, t, l) ==> HasEntry(cfg, mem', t, l)
    decreases cfg.Levels() - l
  {
    hide EntCnt;
    assert t in Reach(cfg, mem, t, l);
    if Inner(cfg, l) {
      forall i: nat | i < EntCnt(cfg, l) ensures InUse(cfg, mem', t, l, i) {
        assert InUse(cfg, mem, t, l, i);
        SubTree(cfg, mem, t, l, i);
        SubInReach(cfg, mem, t, l, i);
        if Present(mem[t][i]) { FrameNonEmpty(cfg, mem, mem', Child(cfg, mem[t][i]), l + 1); }
      }
    }
  }

  /** Only entry `i` of `t` and its subtree changed, and that subtree is in use. */
  lemma NonEmptyUp(cfg: RvmCfg, mem: Mem, mem': Mem, t: nat, l: nat, i: nat)
    requires cfg.Valid() && Inner(cfg, l) && Tree(cfg, mem, t, l) && NonEmpty(cfg, mem, t, l) && i < EntCnt(cfg, l)
    requires t in mem' && i < |mem'[t]| && i < |mem[t]| && mem'[t] == mem[t][i := mem'[t][i]]
    requires InUse(cfg, mem', t, l, i)
    requires forall j: nat {:trigger Sub(cfg, mem, t, l, j)} :: j < EntCnt(cfg, l) && j != i ==>
               Agree(mem, mem', Sub(cfg, mem, t, l, j))
    ensures NonEmpty(cfg, mem', t, l)
  {
    hide EntCnt, Reach;
    forall j: nat | j < EntCnt(cfg, l) ensures InUse(cfg, mem', t, l, j) {
      if j != i {
        assert InUse(cfg, mem, t, l, j);
        SubTree(cfg, mem, t, l, j);
        assert Agree(mem, mem', Sub(cfg, mem, t, l, j));
        if Present(mem[t][j]) { FrameNonEmpty(cfg, mem, mem', Child(cfg, mem[t][j]), l + 1); }
      }
    }
  }

  /** What a map below `t` leaves alone, in the form needed here. */
  lemma MapOthers(cfg: RvmCfg, s: Space, t: nat, l: nat, va: nat, entry: nat)
    requires cfg.Valid() && Inner(cfg, l) && Tree(cfg, s.mem, t, l) && PoolOk(cfg, s)
    ensures var s' := MapF(cfg, s, t, l, va, entry).0;
            forall j: nat {:trigger Sub(cfg, s.mem, t, l, j)} :: j < EntCnt(cfg, l) && j != Index(cfg, l, va) ==>
              Agree(s.mem, s'.mem, Sub(cfg, s.mem, t, l, j))
  {
    hide EntCnt, Index, MapF;
    MapRefines(cfg, s, t, l, va, entry);
    ReachExists(cfg, s.mem, t, l);
    var s' := MapF(cfg, s, t, l, va, entry).0;
    var i := Index(cfg, l, va);
    forall j: nat | j < EntCnt(cfg, l) && j != i ensures Agree(s.mem, s'.mem, Sub(cfg, s.mem, t, l, j)) {
      SubInReach(cfg, s.mem, t, l, j);
      SubTree(cfg, s.mem, t, l, j);
      assert Sub(cfg, s.mem, t, l, if i < j then i else j) !! Sub(cfg, s.mem, t, l, if i < j then j else i);
    }
  }

  /** The table a walk passes through keeps its own entries below it. */
  lemma MapPasses(cfg: RvmCfg, s: Space, t: nat, l: nat, va: nat, entry: nat, c: nat)
    requires cfg.Valid() && l < cfg.Levels() && Tree(cfg, s.mem, c, l) && PoolOk(cfg, s)
    requires t in s.mem && t !in Reach(cfg, s.mem, c, l)
    ensures var s' := MapF(cfg, s, c, l, va, entry).0;
            t in s'.mem && s'.mem[t] == s.mem[t]
  {
    hide EntCnt, Index, MapF;
    MapRefines(cfg, s, c, l, va, entry);
    SubInReach(cfg, s.mem, c, l, Index(cfg, l, va));
  }

  /** A successful map of a non-zero entry leaves no table empty. */
  lemma {:induction false} MapNonEmpty(cfg: RvmCfg, s: Space, t: nat, l: nat, va: nat, entry: nat)
    requires cfg.Valid() && l < cfg.Levels() && Tree(cfg, s.mem, t, l) && PoolOk(cfg, s)
    requires NonEmpty(cfg, s.mem, t, l) && entry != 0 && MapF(cfg, s, t, l, va, entry).1
    ensures var s' := MapF(cfg, s, t, l, va, entry).0;
            NonEmpty(cfg, s'.mem, t, l) && HasEntry(cfg, s'.mem, t, l)
    decreases cfg.Levels() - l
  {
    hide EntCnt, Index, NewTable, Reach, PoolOk;
    var i := Index(cfg, l, va);
    EntCntFits(cfg, l);
    var s' := MapF(cfg, s, t, l, va, entry).0;
    if !Inner(cfg, l) {
      assert s'.mem[t][i] == entry;
    } else if Present(s.mem[t][i]) {
      var c := Child(cfg, s.mem[t][i]);
      SubTree(cfg, s.mem, t, l, i);
      assert InUse(cfg, s.mem, t, l, i);
      MapNonEmpty(cfg, s, c, l + 1, va, entry);
      MapPasses(cfg, s, t, l + 1, va, entry, c);
      MapOthers(cfg, s, t, l, va, entry);
      NonEmptyUp(cfg, s.mem, s'.mem, t, l, i);
    } else {
      var s1, c := NewTable(cfg, s, t, i), s.pool[0];
      NewTableKeeps(cfg, s, t, l, i);
      SubTree(cfg, s1.mem, t, l, i);
      FreshChild(cfg, s, t, l, i);
      MapNonEmpty(cfg, s1, c, l + 1, va, entry);
      MapPasses(cfg, s1, t, l + 1, va, entry, c);
      MapOthers(cfg, s, t, l, va, entry);
      NonEmptyUp(cfg, s.mem, s'.mem, t, l, i);
    }
  }

  lemma FreshChild(cfg: RvmCfg, s: Space, t: nat, l: nat, i: nat)
    requires cfg.Valid() && Inner(cfg, l) && Tree(cfg, s.mem, t, l) && PoolOk(cfg, s)
    requires i < EntCnt(cfg, l) && i < |s.mem[t]| && !Present(s.mem[t][i]) && s.pool != []
    ensures var s1, c := NewTable(cfg, s, t, i), s.pool[0];
            && NonEmpty(cfg, s1.mem, c, l + 1) && !HasEntry(cfg, s1.mem, c, l + 1)
            && t in s1.mem && s1.mem[t] == s.mem[t][i := s1.mem[t][i]]
            && c in s1.mem && forall k: nat :: k < |s1.mem[c]| ==> s1.mem[c][k] == 0
  {
    hide EntCnt, Or, Lookup, Reach, Sub;
  }

  // ---- When a map succeeds ----

  /** Number of tables absent on the way to `va`: from the first missing one down to the
      leaf level. */
  function Missing(cfg: RvmCfg, mem: Mem, t: nat, l: nat, va: nat): nat
    requires cfg.Valid() && l < cfg.Levels()
    decreases cfg.Levels() - l
  {
    var i := Index(cfg, l, va);
    if !Inner(cfg, l) then 0
    else if t in mem && i < |mem[t]| && Present(mem[t][i]) then Missing(cfg, mem, Child(cfg, mem[t][i]), l + 1, va)
    else cfg.Levels() - 1 - l
  }

  /** `map_page` succeeds exactly when the pool has a frame for every absent table. */
  lemma {:induction false} MapSucceedsIff(cfg: RvmCfg, s: Space, t: nat, l: nat, va: nat, entry: nat)
    requires cfg.Valid() && l < cfg.Levels() && Tree(cfg, s.mem, t, l) && PoolOk(cfg, s)
    ensures MapF(cfg, s, t, l, va, entry).1 <==> |s.pool| >= Missing(cfg, s.mem, t, l, va)
    decreases cfg.Levels() - l
  {
    hide EntCnt, Index, NewTable, Reach, PoolOk, Sub, Lookup;
    var i := Index(cfg, l, va);
    EntCntFits(cfg, l);
    if Inner(cfg, l) {
      SubTree(cfg, s.mem, t, l, i);
      if Present(s.mem[t][i]) {
        MapSucceedsIff(cfg, s, Child(cfg, s.mem[t][i]), l + 1, va, entry);
      } else if s.pool != [] {
        var s1, c := NewTable(cfg, s, t, i), s.pool[0];
        NewTableKeeps(cfg, s, t, l, i);
        SubTree(cfg, s1.mem, t, l, i);
        FreshChild(cfg, s, t, l, i);
        MapSucceedsIff(cfg, s1, c, l + 1, va, entry);
        assert |s1.pool| == |s.pool| - 1 by { NewTablePool(cfg, s, t, i); }
        assert Missing(cfg, s1.mem, c, l + 1, va) == cfg.Levels() - 2 - l;
      }
    }
  }

  lemma NewTablePool(cfg: RvmCfg, s: Space, t: nat, i: nat)
    requires cfg.Valid() && t in s.mem && i < |s.mem[t]| && s.pool != [] && PoolOk(cfg, s)
    ensures |NewTable(cfg, s, t, i).pool| == |s.pool| - 1
  {
    PoolFresh(cfg, s);
  }

  // ---- A failed map ----

  lemma {:induction false} FailEmptyPool(cfg: RvmCfg, s: Space, t: nat, l: nat, va: nat, entry: nat)
    requires cfg.Valid() && l < cfg.Levels() && !MapF(cfg, s, t, l, va, entry).1 && s.pool == []
    ensures MapF(cfg, s, t, l, va, entry).0 == s
    decreases cfg.Levels() - l
  {
    hide Index;
    var i := Index(cfg, l, va);
    if t in s.mem && i < |s.mem[t]| && Inner(cfg, l) && Present(s.mem[t][i]) {
      FailEmptyPool(cfg, s, Child(cfg, s.mem[t][i]), l + 1, va, entry);
    }
  }

  /** The table allocated last before the failure has no entry. */
  lemma {:induction false} FailLeavesEmpty(cfg: RvmCfg, s: Space, t: nat, l: nat, va: nat, entry: nat)
    requires cfg.Valid() && l < cfg.Levels() && Tree(cfg, s.mem, t, l) && PoolOk(cfg, s)
    requires !MapF(cfg, s, t, l, va, entry).1 && s.pool != []
    ensures !NonEmpty(cfg, MapF(cfg, s, t, l, va, entry).0.mem, t, l)
    decreases cfg.Levels() - l
  {
    hide EntCnt, Index, NewTable, Reach, PoolOk;
    var i := Index(cfg, l, va);
    EntCntFits(cfg, l);
    var s' := MapF(cfg, s, t, l, va, entry).0;
    if Present(s.mem[t][i]) {
      var c := Child(cfg, s.mem[t][i]);
      SubTree(cfg, s.mem, t, l, i);
      FailLeavesEmpty(cfg, s, c, l + 1, va, entry);
      MapPasses(cfg, s, t, l + 1, va, entry, c);
      assert !InUse(cfg, s'.mem, t, l, i);
    } else {
      var s1, c := NewTable(cfg, s, t, i), s.pool[0];
      NewTableKeeps(cfg, s, t, l, i);
      SubTree(cfg, s1.mem, t, l, i);
      FreshChild(cfg, s, t, l, i);
      MapPasses(cfg, s1, t, l + 1, va, entry, c);
      if s1.pool == [] {
        FailEmptyPool(cfg, s1, c, l + 1, va, entry);
      } else {
        FailLeavesEmpty(cfg, s1, c, l + 1, va, entry);
      }
      assert !InUse(cfg, s'.mem, t, l, i);
    }
  }

  /** A failed map leaves an empty table behind exactly when it allocated one, that is,
      when the pool had a frame left. */
  lemma FailNonEmptyIff(cfg: RvmCfg, s: Space, t: nat, va: nat, entry: nat)
    requires cfg.Valid() && 0 < cfg.Levels() && Tree(cfg, s.mem, t, 0) && PoolOk(cfg, s)
    requires NonEmpty(cfg, s.mem, t, 0) && !MapF(cfg, s, t, 0, va, entry).1
    ensures NonEmpty(cfg, MapF(cfg, s, t, 0, va, entry).0.mem, t, 0) <==> s.pool == []
  {
    if s.pool == [] { FailEmptyPool(cfg, s, t, 0, va, entry); } else { FailLeavesEmpty(cfg, s, t, 0, va, entry); }
  }

  /** `map_page` keeps every table in use exactly when it needs no more frames than the
      pool has, or the pool is empty. */
  lemma MapNonEmptyIff(cfg: RvmCfg, s: Space, t: nat, va: nat, entry: nat)
    requires cfg.Valid() && 0 < cfg.Levels() && Tree(cfg, s.mem, t, 0) && PoolOk(cfg, s)
    requires NonEmpty(cfg, s.mem, t, 0) && entry != 0
    ensures NonEmpty(cfg, MapF(cfg, s, t, 0, va, entry).0.mem, t, 0) <==>
              s.pool == [] || |s.pool| >= Missing(cfg, s.mem, t, 0, va)
  {
    hide MapF, Missing, Tree, PoolOk, NonEmpty, HasEntry;
    MapSucceedsIff(cfg, s, t, 0, va, entry);
    if MapF(cfg, s, t, 0, va, entry).1 {
      MapNonEmpty(cfg, s, t, 0, va, entry);
    } else {
      FailNonEmptyIff(cfg, s, t, va, entry);
    }
  }

  /** A failure that leaves an empty table: a fresh root and a single free frame. */
  lemma FailExample()
    ensures var cfg, s := RvmCfg(12, 48, 7), Space(map[0 := Zeros(512)], [0x1000]);
            && cfg.Valid() && 0 < cfg.Levels() && Tree(cfg, s.mem, 0, 0) && PoolOk(cfg, s) && NonEmpty(cfg, s.mem, 0, 0)
            && !MapF(cfg, s, 0, 0, 0, 1).1
            && !NonEmpty(cfg, MapF(cfg, s, 0, 0, 0, 1).0.mem, 0, 0)
  {
    hide Index, EntCnt, Or, NonEmpty, PoolOk;
    var cfg, s := RvmCfg(12, 48, 7), Space(map[0 := Zeros(512)], [0x1000]);
    assert Pow2(12) == 4096 && Pow2(9) == 512 by { SmallPowers(); }
    EntCntFits(cfg, 0);
    EntCntFits(cfg, 1);
    ZeroTree(cfg, s.mem, 0, 0);
    assert PoolOk(cfg, s) by { assert s.pool[0] == 0x1000; SinglePool(cfg, s); }
    var s1 := NewTable(cfg, s, 0, Index(cfg, 0, 0));
    assert s1.pool == [] && s1.mem[0x1000] == Zeros(512);
    assert NonEmpty(cfg, s.mem, 0, 0) by { ZeroNonEmpty(cfg, s.mem, 0); }
    assert MapF(cfg, s1, 0x1000, 1, 0, 1) == (s1, false);
    FailLeavesEmpty(cfg, s, 0, 0, 0, 1);
  }

  lemma SmallPowers()
    ensures Pow2(12) == 4096 && Pow2(9) == 512
  {
    assert Pow2(4) == 16;
    assert Pow2(8) == 256 by { Pow2Add(4, 4); }
    assert Pow2(12) == 4096 by { Pow2Add(8, 4); }
  }

  lemma SinglePool(cfg: RvmCfg, s: Space)
    requires cfg.PageSize() == 0x1000 && s == Space(map[0 := Zeros(512)], [0x1000])
    ensures PoolOk(cfg, s)
  {}

  lemma ZeroNonEmpty(cfg: RvmCfg, mem: Mem, t: nat)
    requires cfg.Valid() && 0 < cfg.Levels() && t in mem && AllZero(mem[t], EntCnt(cfg, 0))
    ensures NonEmpty(cfg, mem, t, 0)
  {}

  // ---- Unmapping ----

  /** Unmapping leaves no table empty: an emptied table is freed on the way back. */
  lemma {:induction false} UnmapNonEmpty(cfg: RvmCfg, mem: Mem, t: nat, l: nat, va: nat)
    requires cfg.Valid() && l < cfg.Levels() && Tree(cfg, mem, t, l) && NonEmpty(cfg, mem, t, l)
    ensures var (mem', freed, empty) := UnmapF(cfg, mem, t, l, va);
            && NonEmpty(cfg, mem', t, l)
            && (HasEntry(cfg, mem, t, l) && !empty ==> HasEntry(cfg, mem', t, l))
    decreases cfg.Levels() - l
  {
    hide EntCnt, Index, Reach, Unmapped;
    var i := Index(cfg, l, va);
    EntCntFits(cfg, l);
    if Inner(cfg, l) && Present(mem[t][i]) {
      var c := Child(cfg, mem[t][i]);
      SubTree(cfg, mem, t, l, i);
      assert InUse(cfg, mem, t, l, i);
      UnmapNonEmpty(cfg, mem, c, l + 1, va);
      UnmapRefines(cfg, mem, c, l + 1, va);
      var (mem1, freed, empty) := UnmapF(cfg, mem, c, l + 1, va);
      UnmapFrame(cfg, mem, t, l, va, mem1, freed, empty);
      if empty {
        var mem2 := SetEntry(mem1, t, i, 0) - {c};
        NonEmptyUp(cfg, mem, mem2, t, l, i);
      } else {
        NonEmptyUp(cfg, mem, mem1, t, l, i);
        assert mem1[t][i] != 0;
      }
    }
  }

  // ---- Everything unmapped ----

  /** Any index at one level can be combined with the lower indices of any address. */
  lemma WithIndex(cfg: RvmCfg, l: nat, i: nat, va: nat) returns (va': nat)
    requires cfg.Valid() && l < cfg.Levels() && i < EntCnt(cfg, l)
    ensures Index(cfg, l, va') == i && SameFrom(cfg, l + 1, va, va')
  {
    hide Pow2;
    ShiftBound(cfg, l);
    var m := Pow2(cfg.Shift(l));
    va' := i * m + va % m;
    DivUnique(va', m, i, va % m);
    DivUnique(i, EntCnt(cfg, l), 0, i);
    forall k: nat | l + 1 <= k < cfg.Levels() ensures Index(cfg, k, va) == Index(cfg, k, va') {
      ShiftBound(cfg, k);
      ShiftGap(cfg, l, k);
      LowBits(va, va', cfg.Shift(k), cfg.IndexBits(), cfg.Shift(l));
    }
  }

  lemma ShiftGap(cfg: RvmCfg, l: nat, k: nat)
    requires cfg.Valid() && l < k < cfg.Levels()
    ensures cfg.Shift(k) + cfg.IndexBits() <= cfg.Shift(l)
  {
    var ib := cfg.IndexBits();
    assert ib == 9 || ib == 11 || ib == 13;
  }

  /** A table in use translates some page. */
  lemma {:induction false} SomePage(cfg: RvmCfg, mem: Mem, t: nat, l: nat) returns (va: nat)
    requires cfg.Valid() && l < cfg.Levels() && Tree(cfg, mem, t, l) && NonEmpty(cfg, mem, t, l)
             && HasEntry(cfg, mem, t, l)
    ensures Lookup(cfg, mem, t, l, va) != 0
    decreases cfg.Levels() - l
  {
    hide Index, EntCnt, SameFrom, Reach;
    var j: nat :| j < EntCnt(cfg, l) && j < |mem[t]| && mem[t][j] != 0;
    if !Inner(cfg, l) {
      va := WithIndex(cfg, l, j, 0);
    } else {
      SubTree(cfg, mem, t, l, j);
      assert InUse(cfg, mem, t, l, j);
      var c := Child(cfg, mem[t][j]);
      var low := SomePage(cfg, mem, c, l + 1);
      va := WithIndex(cfg, l, j, low);
      LookupSame(cfg, mem, c, l + 1, low, va);
    }
  }

  lemma PageBelow(cfg: RvmCfg, mem: Mem, t: nat, i: nat) returns (va: nat)
    requires cfg.Valid() && Inner(cfg, 0) && Tree(cfg, mem, t, 0) && NonEmpty(cfg, mem, t, 0)
    requires i < EntCnt(cfg, 0) && i < |mem[t]| && Present(mem[t][i])
    ensures Lookup(cfg, mem, t, 0, va) != 0 && Index(cfg, 0, va) == i
  {
    hide Index, EntCnt, SameFrom, Reach;
    SubTree(cfg, mem, t, 0, i);
    assert InUse(cfg, mem, t, 0, i);
    var c := Child(cfg, mem[t][i]);
    var low := SomePage(cfg, mem, c, 1);
    va := WithIndex(cfg, 0, i, low);
    LookupSame(cfg, mem, c, 1, low, va);
  }

  /** When no page is translated any more, only the root table is left. */
  lemma AllUnmappedAllFreed(cfg: RvmCfg, mem: Mem, t: nat)
    requires cfg.Valid() && 0 < cfg.Levels() && Tree(cfg, mem, t, 0) && NonEmpty(cfg, mem, t, 0)
    requires forall va: nat :: Lookup(cfg, mem, t, 0, va) == 0
    ensures Reach(cfg, mem, t, 0) == {t}
  {
    hide Index, EntCnt, SameFrom;
    forall i: nat | i < EntCnt(cfg, 0) ensures Sub(cfg, mem, t, 0, i) == {} {
      if Inner(cfg, 0) {
        SubTree(cfg, mem, t, 0, i);
        if Present(mem[t][i]) { var va := PageBelow(cfg, mem, t, i); }
      }
    }
  }
}
