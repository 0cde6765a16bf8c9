/** Mapping and unmapping one page: both refine an update of the flat map from virtual
    pages to entries. */
module PageMap {
  import opened Align
  import opened Bits
  import opened PageCfg
  import opened PageTree

  /** Page tables in memory, and the free frames the allocator can still hand out. */
  datatype Space = Space(mem: Mem, pool: seq<nat>)

  ghost predicate PoolOk(cfg: RvmCfg, s: Space) {
    && (forall i {:trigger s.pool[i]} :: 0 <= i < |s.pool| ==> s.pool[i] !in s.mem && s.pool[i] % cfg.PageSize() == 0)
    && (forall i, j {:trigger s.pool[i], s.pool[j]} :: 0 <= i < j < |s.pool| ==> s.pool[i] != s.pool[j])
  }

  function Zeros(n: nat): seq<nat> { seq(n, _ => 0) }

  function SetEntry(mem: Mem, t: nat, i: nat, entry: nat): Mem
    requires t in mem && i < |mem[t]|
  {
    var entries: seq<nat> := mem[t][i := entry];
    mem[t := entries]
  }

  // ---- map_page ----

  /** The walk of `map_page` from table `t` at level `l`; false if a table cannot be
      allocated. Tables allocated before a failure stay. */
  function MapF(cfg: RvmCfg, s: Space, t: nat, l: nat, va: nat, entry: nat): (Space, bool)
    requires cfg.Valid() && l < cfg.Levels()
    decreases cfg.Levels() - l
  {
    var i := Index(cfg, l, va);
    if t !in s.mem || i >= |s.mem[t]| then (s, false)
    else if !Inner(cfg, l) then (s.(mem := SetEntry(s.mem, t, i, entry)), true)
    else if Present(s.mem[t][i]) then MapF(cfg, s, Child(cfg, s.mem[t][i]), l + 1, va, entry)
    else if s.pool == [] then (s, false)
    else MapF(cfg, NewTable(cfg, s, t, i), s.pool[0], l + 1, va, entry)
  }

  /** Links a zeroed table from the pool under entry `i` of `t`. */
  function NewTable(cfg: RvmCfg, s: Space, t: nat, i: nat): Space
    requires cfg.Valid() && t in s.mem && i < |s.mem[t]| && s.pool != []
  {
    var next := s.pool[0];
    var mem1 := s.mem[next := Zeros(TableLen(cfg))];
    if t == next then s
    else Space(SetEntry(mem1, t, i, Or(next, cfg.next)), s.pool[1..])
  }

  lemma NextEntry(cfg: RvmCfg, next: nat)
    requires cfg.Valid() && next % cfg.PageSize() == 0
    ensures Present(Or(next, cfg.next)) && Child(cfg, Or(next, cfg.next)) == next && Or(next, cfg.next) != 0
  {
    hide Or, Pow2;
    OrSmall(next, cfg.next, cfg.pshift);
    assert next == next / cfg.PageSize() * cfg.PageSize();
    DivUnique(next + cfg.next, cfg.PageSize(), next / cfg.PageSize(), cfg.next);
    PageEven(cfg, next);
  }

  lemma PageEven(cfg: RvmCfg, x: nat)
    requires cfg.Valid() && x % cfg.PageSize() == 0
    ensures x % 2 == 0
  {
    assert cfg.PageSize() == 2 * Pow2(cfg.pshift - 1);
    var q := x / cfg.PageSize();
    assert x == q * (2 * Pow2(cfg.pshift - 1));
    assert x == 2 * (q * Pow2(cfg.pshift - 1));
  }

  /** What an edit below `t` on the way to `va` may touch. */
  ghost function Way(cfg: RvmCfg, mem: Mem, t: nat, l: nat, va: nat): set<nat>
    requires cfg.Valid() && l < cfg.Levels()
  {
    {t} + Sub(cfg, mem, t, l, Index(cfg, l, va))
  }

  ghost function Elems(xs: seq<nat>): set<nat> { set x | x in xs }

  ghost function Taken(s: Space, s': Space): set<nat> { s'.mem.Keys - s.mem.Keys }

  /** The pool only loses frames from its front, and these become tables. */
  ghost predicate Draws(s: Space, s': Space) {
    && |s'.pool| <= |s.pool|
    && s'.pool == s.pool[|s.pool| - |s'.pool|..]
    && s'.mem.Keys == s.mem.Keys + Elems(s.pool[..|s.pool| - |s'.pool|])
  }

  ghost predicate Mapped(cfg: RvmCfg, s: Space, t: nat, l: nat, va: nat, entry: nat, s': Space, ok: bool)
    requires cfg.Valid() && l < cfg.Levels()
  {
    && Tree(cfg, s'.mem, t, l) && PoolOk(cfg, s') && Draws(s, s')
    && (forall x :: x in s.mem && x !in Way(cfg, s.mem, t, l, va) ==> s'.mem[x] == s.mem[x])
    && Sub(cfg, s'.mem, t, l, Index(cfg, l, va)) == Sub(cfg, s.mem, t, l, Index(cfg, l, va)) + Taken(s, s')
    && (forall j: nat {:trigger Sub(cfg, s'.mem, t, l, j)} :: j < EntCnt(cfg, l) && j != Index(cfg, l, va) ==>
          Sub(cfg, s'.mem, t, l, j) == Sub(cfg, s.mem, t, l, j))
    && (forall va': nat {:trigger Lookup(cfg, s'.mem, t, l, va')} :: Lookup(cfg, s'.mem, t, l, va') ==
          if ok && SameFrom(cfg, l, va, va') then entry else Lookup(cfg, s.mem, t, l, va'))
  }

  lemma MapLeaf(cfg: RvmCfg, s: Space, t: nat, l: nat, va: nat, entry: nat)
    requires cfg.Valid() && l < cfg.Levels() && !Inner(cfg, l) && Tree(cfg, s.mem, t, l) && PoolOk(cfg, s)
    ensures var (s', ok) := MapF(cfg, s, t, l, va, entry);
            ok && Mapped(cfg, s, t, l, va, entry, s', ok)
  {
    hide Index, EntCnt;
    EntCntFits(cfg, l);
    var (s', ok) := MapF(cfg, s, t, l, va, entry);
    assert s'.mem.Keys == s.mem.Keys;
    forall va': nat ensures SameFrom(cfg, l, va, va') <==> Index(cfg, l, va) == Index(cfg, l, va') {
      assert l < cfg.Levels();
    }
  }

  /** Linking a fresh zero table changes no translation. */
  lemma NewTableKeeps(cfg: RvmCfg, s: Space, t: nat, l: nat, i: nat)
    requires cfg.Valid() && Inner(cfg, l) && Tree(cfg, s.mem, t, l) && PoolOk(cfg, s)
    requires i < EntCnt(cfg, l) && i < |s.mem[t]| && !Present(s.mem[t][i]) && s.pool != []
    ensures var s1 := NewTable(cfg, s, t, i);
            && Tree(cfg, s1.mem, t, l) && PoolOk(cfg, s1) && Draws(s, s1)
            && t in s1.mem && i < |s1.mem[t]| && s1.mem[t][i] != 0
            && Present(s1.mem[t][i]) && Child(cfg, s1.mem[t][i]) == s.pool[0]
            && Sub(cfg, s1.mem, t, l, i) == {s.pool[0]} && Taken(s, s1) == {s.pool[0]}
            && Sub(cfg, s.mem, t, l, i) == {}
            && (forall x :: x in s.mem && x != t ==> s1.mem[x] == s.mem[x])
            && (forall j: nat {:trigger Sub(cfg, s1.mem, t, l, j)} :: j < EntCnt(cfg, l) && j != i ==>
                  Sub(cfg, s1.mem, t, l, j) == Sub(cfg, s.mem, t, l, j))
            && (forall va: nat {:trigger Lookup(cfg, s1.mem, t, l, va)} ::
                  Lookup(cfg, s1.mem, t, l, va) == Lookup(cfg, s.mem, t, l, va))
  {
    hide Index, EntCnt, Or;
    var next := s.pool[0];
    var s1 := NewTable(cfg, s, t, i);
    assert s.pool[..1] == [next];
    NextEntry(cfg, next);
    ZeroTree(cfg, s1.mem, next, l + 1);
    assert Sub(cfg, s1.mem, t, l, i) == {next};
    ReachExists(cfg, s.mem, t, l);
    forall j: nat | j < EntCnt(cfg, l) && j != i
      ensures Agree(s.mem, s1.mem, Sub(cfg, s.mem, t, l, j)) && Sub(cfg, s.mem, t, l, j) !! Sub(cfg, s1.mem, t, l, i)
    {
      SubInReach(cfg, s.mem, t, l, j);
      SubTree(cfg, s.mem, t, l, j);
    }
    Regraft(cfg, s.mem, s1.mem, t, l, i);
    forall va: nat ensures Lookup(cfg, s1.mem, t, l, va) == Lookup(cfg, s.mem, t, l, va) {
      if Index(cfg, l, va) == i {
        assert Lookup(cfg, s1.mem, next, l + 1, va) == 0;
      }
    }
    forall k | 0 <= k < |s1.pool| ensures s1.pool[k] !in s1.mem && s1.pool[k] % cfg.PageSize() == 0 {
      assert s1.pool[k] == s.pool[k + 1] && s.pool[0] != s.pool[k + 1];
    }
  }

  /** The walk continues in the subtree of entry `i`; this carries its result up. */
  lemma MapUp(cfg: RvmCfg, s: Space, t: nat, l: nat, va: nat, entry: nat, s': Space, ok: bool)
    requires cfg.Valid() && Inner(cfg, l) && Tree(cfg, s.mem, t, l) && PoolOk(cfg, s)
    requires var i := Index(cfg, l, va);
             && i < |s.mem[t]| && Present(s.mem[t][i])
             && Mapped(cfg, s, Child(cfg, s.mem[t][i]), l + 1, va, entry, s', ok)
    ensures Mapped(cfg, s, t, l, va, entry, s', ok)
  {
    hide Index, EntCnt, PoolOk;
    var i := Index(cfg, l, va);
    var c := Child(cfg, s.mem[t][i]);
    SubTree(cfg, s.mem, t, l, i);
    ReachExists(cfg, s.mem, t, l);
    ReachGrows(cfg, s, c, l + 1, va, entry, s', ok);
    SubInReach(cfg, s.mem, c, l + 1, Index(cfg, l + 1, va));
    assert Way(cfg, s.mem, c, l + 1, va) <= Sub(cfg, s.mem, t, l, i);
    assert s'.mem[t] == s.mem[t];
    forall j: nat | j < EntCnt(cfg, l) && j != i
      ensures Agree(s.mem, s'.mem, Sub(cfg, s.mem, t, l, j)) && Sub(cfg, s.mem, t, l, j) !! Sub(cfg, s'.mem, t, l, i)
    {
      SubInReach(cfg, s.mem, t, l, j);
      assert Sub(cfg, s.mem, t, l, if i < j then i else j) !! Sub(cfg, s.mem, t, l, if i < j then j else i);
    }
    assert t !in Taken(s, s');
    Regraft(cfg, s.mem, s'.mem, t, l, i);
    forall va': nat ensures Lookup(cfg, s'.mem, t, l, va') ==
                              if ok && SameFrom(cfg, l, va, va') then entry else Lookup(cfg, s.mem, t, l, va')
    {
      SameFromStep(cfg, l, va, va');
      if Index(cfg, l, va') == i {
        assert Lookup(cfg, s'.mem, t, l, va') == Lookup(cfg, s'.mem, c, l + 1, va');
        assert Lookup(cfg, s.mem, t, l, va') == Lookup(cfg, s.mem, c, l + 1, va');
      }
    }
  }

  lemma ReachGrows(cfg: RvmCfg, s: Space, t: nat, l: nat, va: nat, entry: nat, s': Space, ok: bool)
    requires cfg.Valid() && l < cfg.Levels() && Mapped(cfg, s, t, l, va, entry, s', ok)
    ensures Reach(cfg, s'.mem, t, l) == Reach(cfg, s.mem, t, l) + Taken(s, s')
  {
    hide EntCnt;
    var i := Index(cfg, l, va);
    forall x ensures x in Reach(cfg, s'.mem, t, l) <==> x in Reach(cfg, s.mem, t, l) + Taken(s, s') {
      if x in Reach(cfg, s'.mem, t, l) && x != t {
        var j := ReachWitness(cfg, s'.mem, t, l, x);
        assert j != i ==> x in Sub(cfg, s.mem, t, l, j);
      }
      if x in Reach(cfg, s.mem, t, l) && x != t {
        var j := ReachWitness(cfg, s.mem, t, l, x);
        assert x in Sub(cfg, s'.mem, t, l, j);
      }
      if x in Taken(s, s') { assert x in Sub(cfg, s'.mem, t, l, i); }
    }
  }

  lemma MapAfterNew(cfg: RvmCfg, s: Space, s1: Space, t: nat, l: nat, va: nat, entry: nat, s': Space, ok: bool)
    requires cfg.Valid() && Inner(cfg, l) && Tree(cfg, s.mem, t, l) && PoolOk(cfg, s)
    requires Index(cfg, l, va) < |s.mem[t]| && !Present(s.mem[t][Index(cfg, l, va)]) && s.pool != []
    requires s1 == NewTable(cfg, s, t, Index(cfg, l, va))
    requires Mapped(cfg, s1, t, l, va, entry, s', ok)
    ensures Mapped(cfg, s, t, l, va, entry, s', ok)
  {
    hide Index, EntCnt, Tree, PoolOk, NewTable, Lookup, Sub;
    var i := Index(cfg, l, va);
    NewTableKeeps(cfg, s, t, l, i);
    DrawsTrans(s, s1, s');
    PoolFresh(cfg, s);
    hide SameFrom;
    assert Taken(s, s') == Taken(s, s1) + Taken(s1, s') by { TakenTrans(s, s1, s'); }
    forall x | x in s.mem && x !in Way(cfg, s.mem, t, l, va) ensures s'.mem[x] == s.mem[x] {
      assert x != s.pool[0] && x in s1.mem && x !in Way(cfg, s1.mem, t, l, va);
    }
  }

  lemma TakenTrans(s: Space, s1: Space, s2: Space)
    requires Draws(s, s1) && Draws(s1, s2)
    ensures Taken(s, s2) == Taken(s, s1) + Taken(s1, s2)
  {}

  lemma PoolFresh(cfg: RvmCfg, s: Space)
    requires PoolOk(cfg, s) && s.pool != []
    ensures s.pool[0] !in s.mem
  {}

  lemma DrawsTrans(s: Space, s1: Space, s2: Space)
    requires Draws(s, s1) && Draws(s1, s2)
    ensures Draws(s, s2)
  {
    var n, m := |s.pool| - |s1.pool|, |s1.pool| - |s2.pool|;
    assert s.pool[..n + m] == s.pool[..n] + s1.pool[..m];
  }

  /** `map_page` refines an update of the flat map: on success it changes the entry of
      exactly the pages that share all indices with `va`; on failure it changes no
      translation. It only touches the tables on its way and tables it allocates, and
      the tables still form a tree. */
  lemma {:induction false} MapRefines(cfg: RvmCfg, s: Space, t: nat, l: nat, va: nat, entry: nat)
    requires cfg.Valid() && l < cfg.Levels() && Tree(cfg, s.mem, t, l) && PoolOk(cfg, s)
    ensures Mapped(cfg, s, t, l, va, entry, MapF(cfg, s, t, l, va, entry).0, MapF(cfg, s, t, l, va, entry).1)
    decreases cfg.Levels() - l
  {
    hide Index, EntCnt, PoolOk, NewTable, Mapped, Reach;
    var i := Index(cfg, l, va);
    EntCntFits(cfg, l);
    if !Inner(cfg, l) {
      MapLeaf(cfg, s, t, l, va, entry);
    } else if Present(s.mem[t][i]) {
      SubTree(cfg, s.mem, t, l, i);
      MapRefines(cfg, s, Child(cfg, s.mem[t][i]), l + 1, va, entry);
      var (s', ok) := MapF(cfg, s, Child(cfg, s.mem[t][i]), l + 1, va, entry);
      MapUp(cfg, s, t, l, va, entry, s', ok);
    } else if s.pool == [] {
      MapNothing(cfg, s, t, l, va, entry);
    } else {
      var s1 := NewTable(cfg, s, t, i);
      NewTableKeeps(cfg, s, t, l, i);
      SubTree(cfg, s1.mem, t, l, i);
      MapRefines(cfg, s1, s.pool[0], l + 1, va, entry);
      var (s', ok) := MapF(cfg, s1, s.pool[0], l + 1, va, entry);
      MapUp(cfg, s1, t, l, va, entry, s', ok);
      MapAfterNew(cfg, s, s1, t, l, va, entry, s', ok);
    }
  }

  lemma MapNothing(cfg: RvmCfg, s: Space, t: nat, l: nat, va: nat, entry: nat)
    requires cfg.Valid() && l < cfg.Levels() && Tree(cfg, s.mem, t, l) && PoolOk(cfg, s)
    ensures Mapped(cfg, s, t, l, va, entry, s, false)
  {
    hide Index, EntCnt, Tree, Sub, Lookup;
    assert s.pool[0..] == s.pool;
  }

  // ---- unmap_page ----

  predicate AllZero(entries: seq<nat>, n: nat) {
    forall i :: 0 <= i < n && i < |entries| ==> entries[i] == 0
  }

  /** The recursion of `unmap_rec`: the memory afterwards, the tables it frees in order,
      and whether table `t` is left without entries on the way back. */
  function UnmapF(cfg: RvmCfg, mem: Mem, t: nat, l: nat, va: nat): (Mem, seq<nat>, bool)
    requires cfg.Valid() && l < cfg.Levels()
    decreases cfg.Levels() - l
  {
    var i := Index(cfg, l, va);
    if t !in mem || i >= |mem[t]| then (mem, [], false)
    else if !Inner(cfg, l) then
      var mem' := SetEntry(mem, t, i, 0);
      (mem', [], AllZero(mem'[t], EntCnt(cfg, l)))
    else if !Present(mem[t][i]) then (mem, [], false)
    else
      var child := Child(cfg, mem[t][i]);
      var (mem1, freed, empty) := UnmapF(cfg, mem, child, l + 1, va);
      if empty && t in mem1 && i < |mem1[t]| && t != child then
        var mem2 := Pruned(mem1, t, i, child);
        (mem2, freed + [child], AllZero(mem2[t], EntCnt(cfg, l)))
      else (mem1, freed, false)
  }

  ghost predicate Distinct(xs: seq<nat>) {
    forall i, j :: 0 <= i < j < |xs| ==> xs[i] != xs[j]
  }

  ghost predicate Unmapped(cfg: RvmCfg, mem: Mem, t: nat, l: nat, va: nat, mem': Mem, freed: seq<nat>, empty: bool)
    requires cfg.Valid() && l < cfg.Levels()
  {
    && Tree(cfg, mem', t, l)
    && mem'.Keys == mem.Keys - Elems(freed)
    && Elems(freed) <= Sub(cfg, mem, t, l, Index(cfg, l, va)) && Distinct(freed)
    && (forall x :: x in mem' && x !in Way(cfg, mem, t, l, va) ==> mem'[x] == mem[x])
    && Sub(cfg, mem', t, l, Index(cfg, l, va)) == Sub(cfg, mem, t, l, Index(cfg, l, va)) - Elems(freed)
    && (forall j: nat {:trigger Sub(cfg, mem', t, l, j)} :: j < EntCnt(cfg, l) && j != Index(cfg, l, va) ==>
          Sub(cfg, mem', t, l, j) == Sub(cfg, mem, t, l, j))
    && (forall va': nat {:trigger Lookup(cfg, mem', t, l, va')} :: Lookup(cfg, mem', t, l, va') ==
          if SameFrom(cfg, l, va, va') then 0 else Lookup(cfg, mem, t, l, va'))
    && (empty ==> AllZero(mem'[t], EntCnt(cfg, l)))
  }

  lemma UnmapLeaf(cfg: RvmCfg, mem: Mem, t: nat, l: nat, va: nat)
    requires cfg.Valid() && l < cfg.Levels() && !Inner(cfg, l) && Tree(cfg, mem, t, l)
    ensures var (mem', freed, empty) := UnmapF(cfg, mem, t, l, va);
            Unmapped(cfg, mem, t, l, va, mem', freed, empty)
  {
    hide Index, EntCnt;
    EntCntFits(cfg, l);
    var (mem', freed, empty) := UnmapF(cfg, mem, t, l, va);
    assert mem'.Keys == mem.Keys;
    forall va': nat ensures SameFrom(cfg, l, va, va') <==> Index(cfg, l, va) == Index(cfg, l, va') {
      assert l < cfg.Levels();
    }
  }

  lemma UnmapNothing(cfg: RvmCfg, mem: Mem, t: nat, l: nat, va: nat)
    requires cfg.Valid() && Inner(cfg, l) && Tree(cfg, mem, t, l)
    requires Index(cfg, l, va) < |mem[t]| && !Present(mem[t][Index(cfg, l, va)])
    ensures Unmapped(cfg, mem, t, l, va, mem, [], false)
  {
    hide Index, EntCnt, Tree, Sub;
    forall va': nat | SameFrom(cfg, l, va, va') ensures Lookup(cfg, mem, t, l, va') == 0 {
      SameFromStep(cfg, l, va, va');
    }
  }

  lemma ReachShrinks(cfg: RvmCfg, mem: Mem, t: nat, l: nat, va: nat, mem': Mem, freed: seq<nat>, empty: bool)
    requires cfg.Valid() && l < cfg.Levels() && Tree(cfg, mem, t, l) && Unmapped(cfg, mem, t, l, va, mem', freed, empty)
    ensures Reach(cfg, mem', t, l) == Reach(cfg, mem, t, l) - Elems(freed)
    ensures t !in Elems(freed)
  {
    hide EntCnt, Index;
    var i := Index(cfg, l, va);
    if Inner(cfg, l) { SubTree(cfg, mem, t, l, i); }
    forall x ensures x in Reach(cfg, mem', t, l) <==> x in Reach(cfg, mem, t, l) - Elems(freed) {
      if x in Reach(cfg, mem', t, l) && x != t {
        var j := ReachWitness(cfg, mem', t, l, x);
        assert x in Sub(cfg, mem, t, l, j);
        if j != i { assert Sub(cfg, mem, t, l, if i < j then i else j) !! Sub(cfg, mem, t, l, if i < j then j else i); }
      }
      if x in Reach(cfg, mem, t, l) - Elems(freed) && x != t {
        var j := ReachWitness(cfg, mem, t, l, x);
        assert x in Sub(cfg, mem', t, l, j);
      }
    }
  }

  /** What an unmap in the subtree of entry `i` leaves of the other subtrees. */
  lemma UnmapFrame(cfg: RvmCfg, mem: Mem, t: nat, l: nat, va: nat, mem1: Mem, freed: seq<nat>, empty: bool)
    requires cfg.Valid() && Inner(cfg, l) && Tree(cfg, mem, t, l)
    requires var i := Index(cfg, l, va);
             && i < |mem[t]| && Present(mem[t][i])
             && Unmapped(cfg, mem, Child(cfg, mem[t][i]), l + 1, va, mem1, freed, empty)
    ensures var i := Index(cfg, l, va);
            var c := Child(cfg, mem[t][i]);
            && t in mem1 && mem1[t] == mem[t] && t != c && c in mem1
            && Elems(freed) <= Sub(cfg, mem, t, l, i) && c in Sub(cfg, mem, t, l, i) && c !in Elems(freed)
            && Reach(cfg, mem1, c, l + 1) == Sub(cfg, mem, t, l, i) - Elems(freed)
            && (forall x :: x in mem1 && x !in Sub(cfg, mem, t, l, i) ==> mem1[x] == mem[x])
            && (forall j: nat {:trigger Sub(cfg, mem, t, l, j)} :: j < EntCnt(cfg, l) && j != i ==>
                  && Agree(mem, mem1, Sub(cfg, mem, t, l, j))
                  && Sub(cfg, mem, t, l, j) !! Sub(cfg, mem, t, l, i)
                  && t !in Sub(cfg, mem, t, l, j))
  {
    hide Index, EntCnt;
    var i := Index(cfg, l, va);
    var c := Child(cfg, mem[t][i]);
    SubTree(cfg, mem, t, l, i);
    ReachExists(cfg, mem, t, l);
    ReachShrinks(cfg, mem, c, l + 1, va, mem1, freed, empty);
    SubInReach(cfg, mem, c, l + 1, Index(cfg, l + 1, va));
    SubInReach(cfg, mem, t, l, i);
    assert Way(cfg, mem, c, l + 1, va) <= Sub(cfg, mem, t, l, i);
    forall j: nat | j < EntCnt(cfg, l) && j != i
      ensures Agree(mem, mem1, Sub(cfg, mem, t, l, j)) && Sub(cfg, mem, t, l, j) !! Sub(cfg, mem, t, l, i)
      ensures t !in Sub(cfg, mem, t, l, j)
    {
      SubInReach(cfg, mem, t, l, j);
      SubTree(cfg, mem, t, l, j);
      assert Sub(cfg, mem, t, l, if i < j then i else j) !! Sub(cfg, mem, t, l, if i < j then j else i);
    }
  }

  lemma UnmapKeep(cfg: RvmCfg, mem: Mem, t: nat, l: nat, va: nat, mem1: Mem, freed: seq<nat>, empty: bool)
    requires cfg.Valid() && Inner(cfg, l) && Tree(cfg, mem, t, l)
    requires var i := Index(cfg, l, va);
             && i < |mem[t]| && Present(mem[t][i])
             && Unmapped(cfg, mem, Child(cfg, mem[t][i]), l + 1, va, mem1, freed, empty)
    ensures Unmapped(cfg, mem, t, l, va, mem1, freed, false)
  {
    hide Index, EntCnt, Reach;
    var i := Index(cfg, l, va);
    var c := Child(cfg, mem[t][i]);
    UnmapFrame(cfg, mem, t, l, va, mem1, freed, empty);
    SubTree(cfg, mem, t, l, i);
    Regraft(cfg, mem, mem1, t, l, i);
    forall va': nat
      ensures Lookup(cfg, mem1, t, l, va') == if SameFrom(cfg, l, va, va') then 0 else Lookup(cfg, mem, t, l, va')
    {
      SameFromStep(cfg, l, va, va');
      if Index(cfg, l, va') == i {
        assert Lookup(cfg, mem1, t, l, va') == Lookup(cfg, mem1, c, l + 1, va');
        assert Lookup(cfg, mem, t, l, va') == Lookup(cfg, mem, c, l + 1, va');
      }
    }
  }

  /** Memory once the emptied table below entry `i` of `t` is unlinked and freed. */
  function Pruned(mem: Mem, t: nat, i: nat, c: nat): Mem
    requires t in mem && i < |mem[t]|
  {
    SetEntry(mem, t, i, 0) - {c}
  }

  lemma PruneTree(cfg: RvmCfg, mem: Mem, t: nat, l: nat, va: nat, mem1: Mem, freed: seq<nat>)
    requires cfg.Valid() && Inner(cfg, l) && Tree(cfg, mem, t, l)
    requires var i := Index(cfg, l, va);
             && i < |mem[t]| && Present(mem[t][i])
             && Unmapped(cfg, mem, Child(cfg, mem[t][i]), l + 1, va, mem1, freed, true)
             && t in mem1 && i < |mem1[t]|
    ensures var i := Index(cfg, l, va);
            var c := Child(cfg, mem[t][i]);
            var mem2 := Pruned(mem1, t, i, c);
            && t in mem2 && Tree(cfg, mem2, t, l) && t != c
            && Sub(cfg, mem2, t, l, i) == {} && Sub(cfg, mem, t, l, i) == Elems(freed) + {c} && c !in Elems(freed)
            && (forall j: nat {:trigger Sub(cfg, mem2, t, l, j)} :: j < EntCnt(cfg, l) && j != i ==>
                  Sub(cfg, mem2, t, l, j) == Sub(cfg, mem, t, l, j))
            && (forall va': nat {:trigger Lookup(cfg, mem2, t, l, va')} :: Lookup(cfg, mem2, t, l, va') ==
                  if Index(cfg, l, va') == i then 0 else Lookup(cfg, mem, t, l, va'))
            && (forall x :: x in mem2 && x !in Way(cfg, mem, t, l, va) ==> mem2[x] == mem[x])
  {
    hide Index, EntCnt, Reach;
    var i := Index(cfg, l, va);
    var c := Child(cfg, mem[t][i]);
    var mem2 := Pruned(mem1, t, i, c);
    UnmapFrame(cfg, mem, t, l, va, mem1, freed, true);
    SubTree(cfg, mem, t, l, i);
    ZeroTree(cfg, mem1, c, l + 1);
    hide Unmapped, Tree, Lookup;
    assert Sub(cfg, mem2, t, l, i) == {};
    assert TableOk(cfg, mem2, t) by { TreeTable(cfg, mem, t, l); }
    Regraft(cfg, mem, mem2, t, l, i);
    forall va': nat | Index(cfg, l, va') == i ensures Lookup(cfg, mem2, t, l, va') == 0 {
      NotPresent(cfg, mem2, t, l, va');
    }
  }

  lemma NotPresent(cfg: RvmCfg, mem: Mem, t: nat, l: nat, va: nat)
    requires cfg.Valid() && Inner(cfg, l) && t in mem
    requires Index(cfg, l, va) < |mem[t]| ==> !Present(mem[t][Index(cfg, l, va)])
    ensures Lookup(cfg, mem, t, l, va) == 0
  {}

  lemma UnmapPrune(cfg: RvmCfg, mem: Mem, t: nat, l: nat, va: nat, mem1: Mem, freed: seq<nat>)
    requires cfg.Valid() && Inner(cfg, l) && Tree(cfg, mem, t, l)
    requires var i := Index(cfg, l, va);
             && i < |mem[t]| && Present(mem[t][i])
             && Unmapped(cfg, mem, Child(cfg, mem[t][i]), l + 1, va, mem1, freed, true)
             && t in mem1 && i < |mem1[t]|
    ensures var i := Index(cfg, l, va);
            var c := Child(cfg, mem[t][i]);
            var mem2 := Pruned(mem1, t, i, c);
            t in mem2 && Unmapped(cfg, mem, t, l, va, mem2, freed + [c], AllZero(mem2[t], EntCnt(cfg, l)))
  {
    PruneTree(cfg, mem, t, l, va, mem1, freed);
    hide Index, EntCnt, Reach, Tree, Sub;
    var i := Index(cfg, l, va);
    var c := Child(cfg, mem[t][i]);
    var mem2 := Pruned(mem1, t, i, c);
    assert Elems(freed + [c]) == Elems(freed) + {c};
    assert mem2.Keys == mem.Keys - Elems(freed + [c]);
    forall va': nat
      ensures Lookup(cfg, mem2, t, l, va') == if SameFrom(cfg, l, va, va') then 0 else Lookup(cfg, mem, t, l, va')
    {
      PruneLookup(cfg, mem, t, l, va, mem1, freed, va');
    }
  }

  /** Below the emptied table, only the page of `va` was translated. */
  lemma PruneLookup(cfg: RvmCfg, mem: Mem, t: nat, l: nat, va: nat, mem1: Mem, freed: seq<nat>, va': nat)
    requires cfg.Valid() && Inner(cfg, l) && Tree(cfg, mem, t, l)
    requires var i := Index(cfg, l, va);
             && i < |mem[t]| && Present(mem[t][i])
             && Unmapped(cfg, mem, Child(cfg, mem[t][i]), l + 1, va, mem1, freed, true)
    ensures SameFrom(cfg, l, va, va') ==> Index(cfg, l, va') == Index(cfg, l, va)
    ensures Index(cfg, l, va') == Index(cfg, l, va) && !SameFrom(cfg, l, va, va') ==> Lookup(cfg, mem, t, l, va') == 0
  {
    hide Index, EntCnt, Reach, SameFrom;
    var i := Index(cfg, l, va);
    var c := Child(cfg, mem[t][i]);
    SameFromStep(cfg, l, va, va');
    if Index(cfg, l, va') == i {
      ZeroTree(cfg, mem1, c, l + 1);
      assert Lookup(cfg, mem1, c, l + 1, va') == 0;
    }
  }

  /** `unmap_page` refines removing the page from the flat map: no other page loses its
      translation, the tables still form a tree, and the tables it frees are distinct. */
  lemma {:induction false} UnmapRefines(cfg: RvmCfg, mem: Mem, t: nat, l: nat, va: nat)
    requires cfg.Valid() && l < cfg.Levels() && Tree(cfg, mem, t, l)
    ensures var (mem', freed, empty) := UnmapF(cfg, mem, t, l, va);
            Unmapped(cfg, mem, t, l, va, mem', freed, empty)
    decreases cfg.Levels() - l
  {
    hide Index, EntCnt, Unmapped, Reach;
    var i := Index(cfg, l, va);
    EntCntFits(cfg, l);
    if !Inner(cfg, l) {
      UnmapLeaf(cfg, mem, t, l, va);
    } else if !Present(mem[t][i]) {
      UnmapNothing(cfg, mem, t, l, va);
    } else {
      var c := Child(cfg, mem[t][i]);
      SubTree(cfg, mem, t, l, i);
      UnmapRefines(cfg, mem, c, l + 1, va);
      var (mem1, freed, empty) := UnmapF(cfg, mem, c, l + 1, va);
      UnmapFrame(cfg, mem, t, l, va, mem1, freed, empty);
      if empty {
        UnmapPrune(cfg, mem, t, l, va, mem1, freed);
      } else {
        UnmapKeep(cfg, mem, t, l, va, mem1, freed, empty);
      }
    }
  }

  /** Table `x` at level `k` has no entry except perhaps the one on the way to `va`. */
  ghost predicate OnlyTowards(cfg: RvmCfg, mem: Mem, x: nat, k: nat, va: nat)
    requires cfg.Valid() && k < cfg.Levels()
  {
    x in mem && forall i :: 0 <= i < EntCnt(cfg, k) && i < |mem[x]| && i != Index(cfg, k, va) ==> mem[x][i] == 0
  }

  /** What `unmap_rec` frees: one table per level, from the leaf level up to `l + 1` at
      most, each without another entry than the one on the way to `va`. */
  ghost predicate FreedEmpty(cfg: RvmCfg, mem: Mem, l: nat, va: nat, freed: seq<nat>)
    requires cfg.Valid() && l < cfg.Levels()
  {
    && |freed| <= cfg.Levels() - 1 - l
    && forall j {:trigger freed[j]} :: 0 <= j < |freed| ==> OnlyTowards(cfg, mem, freed[j], cfg.Levels() - 1 - j, va)
  }

  /** `unmap_page` frees a table only when nothing is left in it. */
  lemma {:induction false} UnmapFreesEmpty(cfg: RvmCfg, mem: Mem, t: nat, l: nat, va: nat)
    requires cfg.Valid() && l < cfg.Levels() && Tree(cfg, mem, t, l)
    ensures var (mem', freed, empty) := UnmapF(cfg, mem, t, l, va);
            && FreedEmpty(cfg, mem, l, va, freed)
            && (empty ==> |freed| == cfg.Levels() - 1 - l && OnlyTowards(cfg, mem, t, l, va))
    decreases cfg.Levels() - l
  {
    hide Index, EntCnt, Unmapped, Reach, Sub, Tree, OnlyTowards;
    TreeTable(cfg, mem, t, l);
    EntCntFits(cfg, l);
    var i := Index(cfg, l, va);
    var (mem', freed, empty) := UnmapF(cfg, mem, t, l, va);
    if !Inner(cfg, l) {
      if empty { ClearedLast(cfg, mem, t, l, va, mem'); }
    } else if Present(mem[t][i]) {
      UnmapBelow(cfg, mem, t, l, va);
      var c := Child(cfg, mem[t][i]);
      UnmapFreesEmpty(cfg, mem, c, l + 1, va);
      var (mem1, freed1, empty1) := UnmapF(cfg, mem, c, l + 1, va);
      if empty1 && empty { ClearedLast(cfg, mem, t, l, va, mem'); }
    }
  }

  /** A table without entries after one was cleared had no other. */
  lemma ClearedLast(cfg: RvmCfg, mem: Mem, t: nat, l: nat, va: nat, mem': Mem)
    requires cfg.Valid() && l < cfg.Levels() && t in mem && t in mem' && Index(cfg, l, va) < |mem[t]|
    requires mem'[t] == mem[t][Index(cfg, l, va) := 0] && AllZero(mem'[t], EntCnt(cfg, l))
    ensures OnlyTowards(cfg, mem, t, l, va)
  {
    hide Index, EntCnt;
    var i := Index(cfg, l, va);
    forall j | 0 <= j < EntCnt(cfg, l) && j < |mem[t]| && j != i ensures mem[t][j] == 0 {
      assert mem'[t][j] == mem[t][j];
    }
  }

  lemma ClearedNone(cfg: RvmCfg, mem: Mem, t: nat, l: nat, va: nat, mem': Mem)
    requires cfg.Valid() && l < cfg.Levels() && t in mem && t in mem' && Index(cfg, l, va) < |mem[t]|
    requires mem'[t] == mem[t][Index(cfg, l, va) := 0] && OnlyTowards(cfg, mem, t, l, va)
    ensures AllZero(mem'[t], EntCnt(cfg, l))
  {
    hide Index, EntCnt;
  }

  /** All tables from `t` down the way to `va` are present and have no other entry. */
  ghost predicate Alone(cfg: RvmCfg, mem: Mem, t: nat, l: nat, va: nat)
    requires cfg.Valid() && l < cfg.Levels()
    decreases cfg.Levels() - l
  {
    var i := Index(cfg, l, va);
    && OnlyTowards(cfg, mem, t, l, va) && i < |mem[t]|
    && (Inner(cfg, l) ==> Present(mem[t][i]) && Alone(cfg, mem, Child(cfg, mem[t][i]), l + 1, va))
  }

  /** `unmap_rec` reports an empty table exactly when nothing else hangs below it. */
  lemma {:induction false} UnmapEmptiesIff(cfg: RvmCfg, mem: Mem, t: nat, l: nat, va: nat)
    requires cfg.Valid() && l < cfg.Levels() && Tree(cfg, mem, t, l)
    ensures UnmapF(cfg, mem, t, l, va).2 <==> Alone(cfg, mem, t, l, va)
    decreases cfg.Levels() - l
  {
    hide Index, EntCnt, Unmapped, Reach, Sub, Tree, OnlyTowards, AllZero;
    TreeTable(cfg, mem, t, l);
    EntCntFits(cfg, l);
    var i := Index(cfg, l, va);
    var (mem', freed, empty) := UnmapF(cfg, mem, t, l, va);
    if !Inner(cfg, l) {
      ClearedIff(cfg, mem, t, l, va, mem');
    } else if Present(mem[t][i]) {
      UnmapBelow(cfg, mem, t, l, va);
      var c := Child(cfg, mem[t][i]);
      UnmapEmptiesIff(cfg, mem, c, l + 1, va);
      var (mem1, freed1, empty1) := UnmapF(cfg, mem, c, l + 1, va);
      if empty1 { ClearedIff(cfg, mem, t, l, va, mem'); }
    }
  }

  /** Below a present entry is a tree, and an unmap in it leaves table `t` alone. */
  lemma UnmapBelow(cfg: RvmCfg, mem: Mem, t: nat, l: nat, va: nat)
    requires cfg.Valid() && Inner(cfg, l) && Tree(cfg, mem, t, l) && t in mem
    requires Index(cfg, l, va) < |mem[t]| && Present(mem[t][Index(cfg, l, va)])
    ensures var c := Child(cfg, mem[t][Index(cfg, l, va)]);
            var (mem1, freed1, empty1) := UnmapF(cfg, mem, c, l + 1, va);
            && Tree(cfg, mem, c, l + 1)
            && t in mem1 && mem1[t] == mem[t] && t != c && c in mem1 && c !in Elems(freed1)
  {
    hide Index, EntCnt, Unmapped, Reach, Sub, UnmapF;
    var i := Index(cfg, l, va);
    SubTree(cfg, mem, t, l, i);
    var c := Child(cfg, mem[t][i]);
    UnmapRefines(cfg, mem, c, l + 1, va);
    var (mem1, freed1, empty1) := UnmapF(cfg, mem, c, l + 1, va);
    UnmapFrame(cfg, mem, t, l, va, mem1, freed1, empty1);
  }

  lemma ClearedIff(cfg: RvmCfg, mem: Mem, t: nat, l: nat, va: nat, mem': Mem)
    requires cfg.Valid() && l < cfg.Levels() && t in mem && t in mem' && Index(cfg, l, va) < |mem[t]|
    requires mem'[t] == mem[t][Index(cfg, l, va) := 0]
    ensures AllZero(mem'[t], EntCnt(cfg, l)) <==> OnlyTowards(cfg, mem, t, l, va)
  {
    hide Index, EntCnt, OnlyTowards, AllZero;
    if AllZero(mem'[t], EntCnt(cfg, l)) { ClearedLast(cfg, mem, t, l, va, mem'); }
    if OnlyTowards(cfg, mem, t, l, va) { ClearedNone(cfg, mem, t, l, va, mem'); }
  }
}
