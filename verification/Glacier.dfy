/** The page-table manager: methods that walk and edit the tables in memory. */
module Glacier {
  import opened Align
  import opened Bits
  import opened PageCfg
  import opened PageTree
  import opened PageMap
  import opened PageRange
  import opened PagePrune
  import opened PageSpace
  import opened Wrappers

  /** The page tables of all address spaces and the free frames, shared by them. */
  class PageMemory {
    var mem: Mem
    var pool: seq<nat>

    constructor (mem: Mem, pool: seq<nat>)
      ensures Contents() == Space(mem, pool)
    {
      this.mem, this.pool := mem, pool;
    }

    function Contents(): Space
      reads this
    {
      Space(mem, pool)
    }

    /** `PHYS_ALLOC.alloc` followed by clearing the frame. */
    method AllocTable(len: nat) returns (r: Option<nat>)
      modifies this
      ensures old(pool) == [] ==> r == None && Contents() == old(Contents())
      ensures old(pool) != [] ==>
                r == Some(old(pool)[0]) && mem == old(mem)[old(pool)[0] := Zeros(len)] && pool == old(pool)[1..]
    {
      if pool == [] { return None; }
      r := Some(pool[0]);
      mem := mem[pool[0] := Zeros(len)];
      pool := pool[1..];
    }

    method FreeTable(t: nat)
      modifies this
      ensures mem == old(mem) - {t} && pool == old(pool) + [t]
    {
      mem := mem - {t};
      pool := pool + [t];
    }
  }

  /** The tables read by a walk of `_drop` are those below its start. */
  lemma {:induction false} FrameDrop(cfg: RvmCfg, mem: Mem, mem': Mem, t: nat, l: nat)
    requires cfg.Valid() && 0 < l < cfg.Levels() && Tree(cfg, mem, t, l) && Agree(mem, mem', Reach(cfg, mem, t, l))
    ensures DropList(cfg, mem', t, l) == DropList(cfg, mem, t, l)
    decreases cfg.Levels() - l, 1, 0
  {
    FrameDropUpTo(cfg, mem, mem', t, l, EntCnt(cfg, l));
  }

  lemma {:induction false} FrameDropUpTo(cfg: RvmCfg, mem: Mem, mem': Mem, t: nat, l: nat, n: nat)
    requires cfg.Valid() && 0 < l < cfg.Levels() && Tree(cfg, mem, t, l)
             && Agree(mem, mem', Reach(cfg, mem, t, l)) && n <= EntCnt(cfg, l)
    ensures DropUpTo(cfg, mem', t, l, n) == DropUpTo(cfg, mem, t, l, n)
    decreases cfg.Levels() - l, 0, n
  {
    hide EntCnt, DropList;
    assert t in Reach(cfg, mem, t, l);
    if n > 0 {
      FrameDropUpTo(cfg, mem, mem', t, l, n - 1);
      if Inner(cfg, l) {
        SubTree(cfg, mem, t, l, n - 1);
        SubInReach(cfg, mem, t, l, n - 1);
        if Present(mem[t][n - 1]) { FrameDrop(cfg, mem, mem', Child(cfg, mem[t][n - 1]), l + 1); }
      }
    }
  }

  /** While `_drop` works below entry `i`, the entries before it are gone and the rest of
      the tree is untouched. */
  lemma DropProgress(cfg: RvmCfg, mem: Mem, t: nat, l: nat, i: nat)
    requires cfg.Valid() && l < cfg.Levels() && Tree(cfg, mem, t, l) && i < EntCnt(cfg, l)
    ensures var mem1 := mem - Elems(DropUpTo(cfg, mem, t, l, i));
            && t in mem1 && mem1[t] == mem[t]
            && (Inner(cfg, l) ==> i < |mem[t]|)
            && (Inner(cfg, l) && Present(mem[t][i]) ==>
                  && Tree(cfg, mem1, Child(cfg, mem[t][i]), l + 1)
                  && DropList(cfg, mem1, Child(cfg, mem[t][i]), l + 1) ==
                        DropList(cfg, mem, Child(cfg, mem[t][i]), l + 1)
                  && t !in Elems(DropList(cfg, mem, Child(cfg, mem[t][i]), l + 1)))
  {
    hide EntCnt, DropList, DropUpTo, Sub, Reach, Branch;
    TreeTable(cfg, mem, t, l);
    DropOff(cfg, mem, t, l, i);
    if Inner(cfg, l) {
      SubTree(cfg, mem, t, l, i);
      if Present(mem[t][i]) { DropBelow(cfg, mem, t, l, i); }
    }
  }

  /** What is dropped below the entries before `i` is neither `t` nor below entry `i`. */
  lemma DropOff(cfg: RvmCfg, mem: Mem, t: nat, l: nat, i: nat)
    requires cfg.Valid() && l < cfg.Levels() && Tree(cfg, mem, t, l) && i < EntCnt(cfg, l)
    ensures t !in Elems(DropUpTo(cfg, mem, t, l, i))
    ensures Inner(cfg, l) ==> Elems(DropUpTo(cfg, mem, t, l, i)) !! Sub(cfg, mem, t, l, i)
  {
    hide EntCnt, DropList, DropUpTo, Sub, Reach, Branch;
    DropUpToExact(cfg, mem, t, l, i);
    forall j: nat | j < i
      ensures t !in Sub(cfg, mem, t, l, j)
      ensures Inner(cfg, l) ==> Sub(cfg, mem, t, l, j) !! Sub(cfg, mem, t, l, i)
    {
      if Inner(cfg, l) { SubTree(cfg, mem, t, l, j); } else { LeafSub(cfg, mem, t, l, j); }
    }
  }

  lemma LeafSub(cfg: RvmCfg, mem: Mem, t: nat, l: nat, j: nat)
    requires cfg.Valid() && l < cfg.Levels() && !Inner(cfg, l)
    ensures Sub(cfg, mem, t, l, j) == {}
  {}

  lemma DropBelow(cfg: RvmCfg, mem: Mem, t: nat, l: nat, i: nat)
    requires cfg.Valid() && Inner(cfg, l) && Tree(cfg, mem, t, l) && i < EntCnt(cfg, l)
    requires t in mem && i < |mem[t]| && Present(mem[t][i])
    ensures var mem1, c := mem - Elems(DropUpTo(cfg, mem, t, l, i)), Child(cfg, mem[t][i]);
            && Tree(cfg, mem1, c, l + 1) && DropList(cfg, mem1, c, l + 1) == DropList(cfg, mem, c, l + 1)
            && t !in Elems(DropList(cfg, mem, c, l + 1))
  {
    hide EntCnt, DropList, DropUpTo, Reach;
    var mem1, c := mem - Elems(DropUpTo(cfg, mem, t, l, i)), Child(cfg, mem[t][i]);
    SubTree(cfg, mem, t, l, i);
    DropOff(cfg, mem, t, l, i);
    ReachExists(cfg, mem, c, l + 1);
    FrameTree(cfg, mem, mem1, c, l + 1);
    FrameDrop(cfg, mem, mem1, c, l + 1);
    DropListExact(cfg, mem, c, l + 1);
  }

  class Glacier {
    const store: PageMemory
    const cfg: RvmCfg
    const root: nat

    constructor (store: PageMemory, cfg: RvmCfg, root: nat)
      ensures this.store == store && this.cfg == cfg && this.root == root
    {
      this.store, this.cfg, this.root := store, cfg, root;
    }

    ghost predicate Valid()
      reads store
    {
      cfg.Valid() && 0 < cfg.Levels() && Tree(cfg, store.mem, root, 0) && PoolOk(cfg, store.Contents())
    }

    /** Glacier::new: a space that shares the upper half of `kernel`. An exhausted frame
        pool is a panic, reported as `None`. */
    static method New(kernel: Glacier) returns (g: Option<Glacier>)
      requires kernel.Valid()
      modifies kernel.store
      ensures g.None? <==> old(kernel.store.pool) == []
      ensures g.None? ==> kernel.store.Contents() == old(kernel.store.Contents())
      ensures g.Some? ==>
                && g.value.store == kernel.store && g.value.cfg == kernel.cfg
                    && g.value.root == old(kernel.store.pool)[0]
                && kernel.store.Contents() == Fork(kernel.cfg, old(kernel.store.Contents()), kernel.root)
                && g.value.Valid() && kernel.Valid() && Shares(kernel.cfg, kernel.store.mem, kernel.root, g.value.root)
    {
      hide EntCnt, Tree;
      ghost var s := kernel.store.Contents();
      var len := TableLen(kernel.cfg);
      TreeTable(kernel.cfg, s.mem, kernel.root, 0);
      EntCntFits(kernel.cfg, 0);
      ghost var kept := kernel.store.mem[kernel.root];
      var r := kernel.store.AllocTable(len);
      if r.None? { return None; }
      var new_root := r.value;
      assert new_root != kernel.root by { PoolFresh(kernel.cfg, s); }
      var hihalf := EntCnt(kernel.cfg, 0) / 2;
      var entries := kernel.store.mem[kernel.root];
      var i := 0;
      while i < hihalf && i < |entries|
        invariant 0 <= i <= |entries| == len && i <= hihalf
        invariant forall k :: 0 <= k < |entries| ==> entries[k] == if k < i then 0 else kept[k]
      {
        entries := entries[i := 0];
        i := i + 1;
      }
      kernel.store.mem := kernel.store.mem[new_root := entries];
      assert i == Half(kernel.cfg);
      assert forall k :: 0 <= k < |entries| ==> entries[k] == ForkTable(kernel.cfg, kept)[k];
      assert entries == ForkTable(kernel.cfg, kept);
      ForkTranslates(kernel.cfg, s, kernel.root);
      var space := new Glacier(kernel.store, kernel.cfg, new_root);
      assert kernel.store.mem == Fork(kernel.cfg, s, kernel.root).mem;
      g := Some(space);
    }

    method MapPage(va: nat, pa: nat, flags: nat) returns (ok: bool)
      requires Valid()
      modifies store
      ensures Valid()
      ensures (store.Contents(), ok) ==
                MapF(cfg, old(store.Contents()), root, 0, AlignDown(va, cfg.PageSize()),
                     Or(AlignDown(pa, cfg.PageSize()), flags))
    {
      hide Index, EntCnt, Or, Reach, MapF;
      var page := cfg.PageSize();
      var va', entry := AlignDown(va, page), Or(AlignDown(pa, page), flags);
      ghost var s := store.Contents();
      MapRefines(cfg, s, root, 0, va', entry);
      var levels := cfg.Levels();
      var table, level := root, 0;
      while level < levels - 1
        invariant 0 <= level < levels
        invariant MapF(cfg, s, root, 0, va', entry) == MapF(cfg, store.Contents(), table, level, va', entry)
        invariant Tree(cfg, store.mem, table, level) && PoolOk(cfg, store.Contents())
      {
        var next := NextTable(table, level, va', entry);
        if next.None? { return false; }
        table, level := next.value, level + 1;
      }
      SetLeaf(table, level, va', entry);
      ok := true;
    }

    /** The last level: writes the entry. */
    method SetLeaf(table: nat, level: nat, va: nat, entry: nat)
      requires cfg.Valid() && level + 1 == cfg.Levels() && Tree(cfg, store.mem, table, level)
      modifies store
      ensures MapF(cfg, old(store.Contents()), table, level, va, entry) == (store.Contents(), true)
    {
      hide Index, EntCnt;
      EntCntFits(cfg, level);
      store.mem := SetEntry(store.mem, table, Index(cfg, level, va), entry);
    }

    /** One step down, allocating the next table if the entry is not present. */
    method NextTable(table: nat, level: nat, va: nat, ghost entry: nat) returns (next: Option<nat>)
      requires cfg.Valid() && Inner(cfg, level) && Tree(cfg, store.mem, table, level) && PoolOk(cfg, store.Contents())
      modifies store
      ensures next.None? ==> MapF(cfg, old(store.Contents()), table, level, va, entry) == (store.Contents(), false)
      ensures next.Some? ==>
                && Tree(cfg, store.mem, next.value, level + 1) && PoolOk(cfg, store.Contents())
                && MapF(cfg, old(store.Contents()), table, level, va, entry) ==
                     MapF(cfg, store.Contents(), next.value, level + 1, va, entry)
    {
      hide Index, EntCnt, Or, Reach, PoolOk;
      var index := Index(cfg, level, va);
      EntCntFits(cfg, level);
      if !Present(store.mem[table][index]) {
        ghost var s := store.Contents();
        next := store.AllocTable(TableLen(cfg));
        if next.None? { return; }
        NewTableKeeps(cfg, s, table, level, index);
        PoolFresh(cfg, s);
        store.mem := SetEntry(store.mem, table, index, Or(next.value, cfg.next));
        assert store.Contents() == NewTable(cfg, s, table, index);
        SubTree(cfg, store.mem, table, level, index);
      } else {
        SubTree(cfg, store.mem, table, level, index);
        next := Some(Child(cfg, store.mem[table][index]));
      }
    }

    method UnmapPageAt(va: nat)
      requires Valid()
      modifies store
      ensures Valid()
      ensures store.Contents() == UnmapPage(cfg, old(store.Contents()), root, AlignDown(va, cfg.PageSize()))
    {
      hide Index, EntCnt, UnmapF;
      UnmapPageKeeps(cfg, store.Contents(), root, AlignDown(va, cfg.PageSize()));
      var _ := UnmapRec(root, AlignDown(va, cfg.PageSize()), 0);
    }

    method UnmapRec(table: nat, va: nat, level: nat) returns (empty: bool)
      requires cfg.Valid() && level < cfg.Levels() && Tree(cfg, store.mem, table, level)
      modifies store
      ensures store.mem == UnmapF(cfg, old(store.mem), table, level, va).0
      ensures store.pool == old(store.pool) + UnmapF(cfg, old(store.mem), table, level, va).1
      ensures empty == UnmapF(cfg, old(store.mem), table, level, va).2
      decreases cfg.Levels() - level
    {
      hide Index, EntCnt, Reach, Unmapped;
      ghost var mem := store.mem;
      EntCntFits(cfg, level);
      var index := Index(cfg, level, va);
      if level == cfg.Levels() - 1 {
        store.mem := SetEntry(store.mem, table, index, 0);
        empty := IsNull(table, EntCnt(cfg, level));
        return;
      }
      if !Present(store.mem[table][index]) { return false; }
      var child := Child(cfg, store.mem[table][index]);
      SubTree(cfg, mem, table, level, index);
      UnmapRefines(cfg, mem, child, level + 1, va);
      ghost var (mem1, freed, e) := UnmapF(cfg, mem, child, level + 1, va);
      UnmapFrame(cfg, mem, table, level, va, mem1, freed, e);
      var childEmpty := UnmapRec(child, va, level + 1);
      if childEmpty {
        store.mem := SetEntry(store.mem, table, index, 0);
        store.FreeTable(child);
        assert mem[table] == mem1[table];
        empty := IsNull(table, EntCnt(cfg, level));
      } else {
        empty := false;
      }
    }

    method IsNull(table: nat, n: nat) returns (r: bool)
      requires table in store.mem && n <= |store.mem[table]|
      ensures r == AllZero(store.mem[table], n)
    {
      var i := 0;
      while i < n
        invariant 0 <= i <= n && forall k :: 0 <= k < i ==> store.mem[table][k] == 0
      {
        if store.mem[table][i] != 0 { return false; }
        i := i + 1;
      }
      r := true;
    }

    method MapRange(va: nat, pa: nat, size: nat, flags: nat) returns (ok: bool)
      requires Valid()
      modifies store
      ensures Valid()
      ensures (store.Contents(), ok) == MapRangeF(cfg, old(store.Contents()), root, va, pa, size, flags)
    {
      hide Index, EntCnt, Or, MapF, Pow2;
      var page := cfg.PageSize();
      var start, base := AlignDown(va, page), AlignDown(pa, page);
      AlignedBase(va, page);
      AlignedBase(pa, page);
      ghost var s := store.Contents();
      var n := RangePages(va, size, page);
      ok := true;
      for j := 0 to n
        invariant Valid() && ok
        invariant MapPages(cfg, s, root, start, base, flags, j) == (store.Contents(), true)
      {
        AlignedStep(start, j, page);
        AlignedStep(base, j, page);
        ok := MapPage(start + j * page, base + j * page, flags);
        if !ok {
          MapPagesStop(cfg, s, root, start, base, flags, j + 1, n);
          return;
        }
      }
    }

    method UnmapRange(va: nat, size: nat)
      requires Valid()
      modifies store
      ensures Valid()
      ensures store.Contents() ==
                UnmapPages(cfg, old(store.Contents()), root, AlignDown(va, cfg.PageSize()),
                           RangePages(va, size, cfg.PageSize()))
    {
      hide Index, EntCnt, UnmapPage, Pow2;
      var page := cfg.PageSize();
      var start := AlignDown(va, page);
      AlignedBase(va, page);
      ghost var s := store.Contents();
      for j := 0 to RangePages(va, size, page)
        invariant Valid()
        invariant UnmapPages(cfg, s, root, start, j) == store.Contents()
      {
        AlignedStep(start, j, page);
        UnmapPageAt(start + j * page);
      }
    }

    method GetPhysical(va: nat) returns (r: Option<nat>)
      requires Valid()
      ensures r == GetPa(cfg, store.mem, root, va)
    {
      hide Index, EntCnt, Reach;
      var va' := AlignDown(va, cfg.PageSize());
      LookupAligned(cfg, store.mem, root, va);
      var levels := cfg.Levels();
      var table, level := root, 0;
      while level < levels
        invariant 0 <= level < levels
        invariant Tree(cfg, store.mem, table, level)
        invariant Lookup(cfg, store.mem, root, 0, va') == Lookup(cfg, store.mem, table, level, va')
      {
        EntCntFits(cfg, level);
        var index := Index(cfg, level, va');
        var entry := store.mem[table][index];
        if !Present(entry) { return None; }
        if level == levels - 1 { return Some(Child(cfg, entry)); }
        SubTree(cfg, store.mem, table, level, index);
        table := Child(cfg, entry);
        level := level + 1;
      }
    }

    method Drop()
      requires Valid()
      modifies store
      ensures store.mem == old(store.mem) - Elems(DropList(cfg, old(store.mem), root, 0))
      ensures store.pool == old(store.pool) + DropList(cfg, old(store.mem), root, 0)
    {
      DropRec(root, 0);
    }

    method DropRec(table: nat, level: nat)
      requires cfg.Valid() && level < cfg.Levels() && Tree(cfg, store.mem, table, level)
      modifies store
      ensures store.mem == old(store.mem) - Elems(DropList(cfg, old(store.mem), table, level))
      ensures store.pool == old(store.pool) + DropList(cfg, old(store.mem), table, level)
      decreases cfg.Levels() - level
    {
      hide EntCnt, Reach, DropList, Tree, DropUpTo, Elems;
      ghost var mem: Mem := store.mem;
      ghost var pool: seq<nat> := store.pool;
      var entries := EntCnt(cfg, level);
      if level == 0 { entries := entries / 2; }
      assert entries == DropCount(cfg, level);
      DropNone(cfg, mem, table, level);
      for i := 0 to entries
        invariant store.mem == mem - Elems(DropUpTo(cfg, mem, table, level, i))
        invariant store.pool == pool + DropUpTo(cfg, mem, table, level, i)
      {
        assert i < EntCnt(cfg, level) by { DropCountFits(cfg, level); }
        DropProgress(cfg, mem, table, level, i);
        TreeIndex(cfg, mem, table, level, i);
        DropStep(cfg, mem, table, level, i);
        var entry := store.mem[table][i];
        if Present(entry) && level < cfg.Levels() - 1 {
          var child := Child(cfg, entry);
          DropRec(child, level + 1);
          ElemsConcat(DropUpTo(cfg, mem, table, level, i), DropList(cfg, mem, child, level + 1));
        }
      }
      store.FreeTable(table);
      DropListEnd(cfg, mem, table, level);
    }
  }

  lemma DropCountFits(cfg: RvmCfg, l: nat)
    requires cfg.Valid() && l < cfg.Levels()
    ensures DropCount(cfg, l) <= EntCnt(cfg, l)
  {}

  lemma DropNone(cfg: RvmCfg, mem: Mem, t: nat, l: nat)
    requires cfg.Valid() && l < cfg.Levels()
    ensures DropUpTo(cfg, mem, t, l, 0) == [] && Elems([]) == {}
  {}

  lemma DropStep(cfg: RvmCfg, mem: Mem, t: nat, l: nat, i: nat)
    requires cfg.Valid() && l < cfg.Levels() && t in mem && i < |mem[t]|
    ensures Inner(cfg, l) && Present(mem[t][i]) ==>
              DropUpTo(cfg, mem, t, l, i + 1) ==
                    DropUpTo(cfg, mem, t, l, i) + DropList(cfg, mem, Child(cfg, mem[t][i]), l + 1)
    ensures !(Inner(cfg, l) && Present(mem[t][i])) ==> DropUpTo(cfg, mem, t, l, i + 1) == DropUpTo(cfg, mem, t, l, i)
  {}

  lemma TreeIndex(cfg: RvmCfg, mem: Mem, t: nat, l: nat, i: nat)
    requires cfg.Valid() && l < cfg.Levels() && Tree(cfg, mem, t, l) && i < EntCnt(cfg, l)
    ensures t in mem && i < |mem[t]|
  {
    EntCntFits(cfg, l);
  }

  lemma ElemsConcat(xs: seq<nat>, ys: seq<nat>)
    ensures Elems(xs + ys) == Elems(xs) + Elems(ys)
  {}

  lemma DropListEnd(cfg: RvmCfg, mem: Mem, t: nat, l: nat)
    requires cfg.Valid() && l < cfg.Levels()
    ensures DropList(cfg, mem, t, l) == DropUpTo(cfg, mem, t, l, DropCount(cfg, l)) + [t]
    ensures Elems(DropList(cfg, mem, t, l)) == Elems(DropUpTo(cfg, mem, t, l, DropCount(cfg, l))) + {t}
  {
    hide DropUpTo, DropCount;
    ElemsConcat(DropUpTo(cfg, mem, t, l, DropCount(cfg, l)), [t]);
    assert Elems([t]) == {t};
  }

  /** Once a page of a range has failed, the range stays where it is. */
  lemma {:induction false} MapPagesStop(cfg: RvmCfg, s: Space, root: nat, va: nat, pa: nat, flags: nat, j: nat, n: nat)
    requires cfg.Valid() && 0 < cfg.Levels() && j <= n && !MapPages(cfg, s, root, va, pa, flags, j).1
    ensures MapPages(cfg, s, root, va, pa, flags, n) == MapPages(cfg, s, root, va, pa, flags, j)
    decreases n
  {
    hide MapF, Or;
    if j < n { MapPagesStop(cfg, s, root, va, pa, flags, j, n - 1); }
  }
}
