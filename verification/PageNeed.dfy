/** How many frames mapping a range takes: one for every table that is absent on the ways to
    its pages, counted once. */
module PageNeed {
  import opened Align
  import opened Bits
  import opened PageCfg
  import opened PageTree
  import opened PageMap
  import opened PageRange
  import opened PagePrune

  /** The way to `va` from table `t` at level `l` has a table at level `k`. */
  predicate HasTable(cfg: RvmCfg, mem: Mem, t: nat, l: nat, va: nat, k: nat)
    requires cfg.Valid() && l <= k < cfg.Levels()
    decreases k - l
  {
    var i := Index(cfg, l, va);
    || k == l
    || (t in mem && i < |mem[t]| && Present(mem[t][i]) && HasTable(cfg, mem, Child(cfg, mem[t][i]), l + 1, va, k))
  }

  /** The indices that lead from the root to the table at level `k`. */
  function Steps(cfg: RvmCfg, va: nat, k: nat): seq<nat>
    requires cfg.Valid() && k <= cfg.Levels()
  {
    seq(k, q requires 0 <= q < k => Index(cfg, q, va))
  }

  /** The tables absent on the way to `va`, each named by the indices that lead to it. */
  ghost function AbsentFor(cfg: RvmCfg, mem: Mem, root: nat, va: nat): set<seq<nat>>
    requires cfg.Valid() && 0 < cfg.Levels()
  {
    set k: nat | 1 <= k < cfg.Levels() && !HasTable(cfg, mem, root, 0, va, k) :: Steps(cfg, va, k)
  }

  /** Where page `j` of a range starts. */
  function PageVa(cfg: RvmCfg, base: nat, j: nat): nat { base + j * cfg.PageSize() }

  /** The tables absent on the ways to the `n` pages from `va` on. */
  ghost function Absent(cfg: RvmCfg, mem: Mem, root: nat, va: nat, n: nat): set<seq<nat>>
    requires cfg.Valid() && 0 < cfg.Levels()
  {
    if n == 0 then {}
    else Absent(cfg, mem, root, va, n - 1) + AbsentFor(cfg, mem, root, PageVa(cfg, va, n - 1))
  }

  /** Both addresses take the same way from level `l` to level `k`. */
  ghost predicate SameTo(cfg: RvmCfg, l: nat, k: nat, va: nat, va': nat)
    requires cfg.Valid() && l <= k < cfg.Levels()
  {
    forall q: nat {:trigger Index(cfg, q, va)} :: l <= q < k ==> Index(cfg, q, va) == Index(cfg, q, va')
  }

  lemma SameToStep(cfg: RvmCfg, l: nat, k: nat, va: nat, va': nat)
    requires cfg.Valid() && l < k < cfg.Levels()
    ensures SameTo(cfg, l, k, va, va') <==>
              Index(cfg, l, va) == Index(cfg, l, va') && SameTo(cfg, l + 1, k, va, va')
  {}

  lemma SameSteps(cfg: RvmCfg, k: nat, va: nat, va': nat)
    requires cfg.Valid() && k < cfg.Levels()
    ensures SameTo(cfg, 0, k, va, va') <==> Steps(cfg, va, k) == Steps(cfg, va', k)
  {
    hide Index;
    var s, s' := Steps(cfg, va, k), Steps(cfg, va', k);
    if s == s' {
      forall q: nat | q < k ensures Index(cfg, q, va) == Index(cfg, q, va') {
        assert s[q] == s'[q];
      }
    }
  }

  lemma {:induction false} HasSame(cfg: RvmCfg, mem: Mem, t: nat, l: nat, va: nat, va': nat, k: nat)
    requires cfg.Valid() && l <= k < cfg.Levels() && SameTo(cfg, l, k, va, va')
    ensures HasTable(cfg, mem, t, l, va, k) <==> HasTable(cfg, mem, t, l, va', k)
    decreases k - l
  {
    hide Index;
    if l < k {
      var i := Index(cfg, l, va);
      SameToStep(cfg, l, k, va, va');
      if t in mem && i < |mem[t]| { HasSame(cfg, mem, Child(cfg, mem[t][i]), l + 1, va, va', k); }
    }
  }

  lemma {:induction false} FrameHas(cfg: RvmCfg, mem: Mem, mem': Mem, t: nat, l: nat, va: nat, k: nat)
    requires cfg.Valid() && l <= k < cfg.Levels() && Tree(cfg, mem, t, l) && Agree(mem, mem', Reach(cfg, mem, t, l))
    ensures HasTable(cfg, mem', t, l, va, k) <==> HasTable(cfg, mem, t, l, va, k)
    decreases k - l
  {
    hide EntCnt, Index;
    if l < k {
      var i := Index(cfg, l, va);
      assert t in Reach(cfg, mem, t, l);
      SubTree(cfg, mem, t, l, i);
      SubInReach(cfg, mem, t, l, i);
      if Present(mem[t][i]) { FrameHas(cfg, mem, mem', Child(cfg, mem[t][i]), l + 1, va, k); }
    }
  }

  // ---- What one page needs, and leaves behind ----

  /** `Missing` counts the levels without a table. */
  lemma {:induction false} MissingLevels(cfg: RvmCfg, mem: Mem, t: nat, l: nat, va: nat, k: nat)
    requires cfg.Valid() && l <= k < cfg.Levels()
    ensures HasTable(cfg, mem, t, l, va, k) <==> k + Missing(cfg, mem, t, l, va) < cfg.Levels()
    ensures l + Missing(cfg, mem, t, l, va) < cfg.Levels()
    decreases cfg.Levels() - l
  {
    hide Index;
    var i := Index(cfg, l, va);
    if Inner(cfg, l) && t in mem && i < |mem[t]| && Present(mem[t][i]) {
      MissingLevels(cfg, mem, Child(cfg, mem[t][i]), l + 1, va, if k == l then l + 1 else k);
    }
  }

  ghost function StepsFrom(cfg: RvmCfg, va: nat, a: nat): set<seq<nat>>
    requires cfg.Valid() && a <= cfg.Levels()
  {
    set k: nat | a <= k < cfg.Levels() :: Steps(cfg, va, k)
  }

  lemma {:induction false} CountSteps(cfg: RvmCfg, va: nat, a: nat)
    requires cfg.Valid() && a <= cfg.Levels()
    ensures |StepsFrom(cfg, va, a)| == cfg.Levels() - a
    decreases cfg.Levels() - a
  {
    if a < cfg.Levels() {
      CountSteps(cfg, va, a + 1);
      var s := Steps(cfg, va, a);
      assert forall w :: w in StepsFrom(cfg, va, a + 1) ==> |w| > a;
      assert StepsFrom(cfg, va, a) == StepsFrom(cfg, va, a + 1) + {s};
    } else {
      assert StepsFrom(cfg, va, a) == {};
    }
  }

  lemma CountAbsentFor(cfg: RvmCfg, mem: Mem, root: nat, va: nat)
    requires cfg.Valid() && 0 < cfg.Levels()
    ensures |AbsentFor(cfg, mem, root, va)| == Missing(cfg, mem, root, 0, va) < cfg.Levels()
  {
    hide HasTable, Missing, Steps;
    var m := Missing(cfg, mem, root, 0, va);
    MissingLevels(cfg, mem, root, 0, va, 0);
    forall k: nat | k < cfg.Levels() ensures HasTable(cfg, mem, root, 0, va, k) <==> k + m < cfg.Levels() {
      MissingLevels(cfg, mem, root, 0, va, k);
    }
    CountSteps(cfg, va, cfg.Levels() - m);
    assert AbsentFor(cfg, mem, root, va) == StepsFrom(cfg, va, cfg.Levels() - m);
  }

  /** A successful map takes a frame from the pool for every absent table. */
  lemma {:induction false} MapTakes(cfg: RvmCfg, s: Space, t: nat, l: nat, va: nat, entry: nat)
    requires cfg.Valid() && l < cfg.Levels() && Tree(cfg, s.mem, t, l) && PoolOk(cfg, s)
    requires MapF(cfg, s, t, l, va, entry).1
    ensures |MapF(cfg, s, t, l, va, entry).0.pool| == |s.pool| - Missing(cfg, s.mem, t, l, va)
    decreases cfg.Levels() - l
  {
    hide EntCnt, Index, NewTable, Reach, PoolOk, Sub, Lookup;
    var i := Index(cfg, l, va);
    EntCntFits(cfg, l);
    if Inner(cfg, l) {
      SubTree(cfg, s.mem, t, l, i);
      if Present(s.mem[t][i]) {
        MapTakes(cfg, s, Child(cfg, s.mem[t][i]), l + 1, va, entry);
      } else {
        var s1, c := NewTable(cfg, s, t, i), s.pool[0];
        NewTableKeeps(cfg, s, t, l, i);
        SubTree(cfg, s1.mem, t, l, i);
        FreshChild(cfg, s, t, l, i);
        MapTakes(cfg, s1, c, l + 1, va, entry);
        NewTablePool(cfg, s, t, i);
        assert Missing(cfg, s1.mem, c, l + 1, va) == cfg.Levels() - 2 - l;
      }
    }
  }

  /** A successful map adds exactly the tables on its own way. */
  lemma {:induction false} MapHas(cfg: RvmCfg, s: Space, t: nat, l: nat, va: nat, entry: nat, va': nat, k: nat)
    requires cfg.Valid() && l <= k < cfg.Levels() && Tree(cfg, s.mem, t, l) && PoolOk(cfg, s)
    requires MapF(cfg, s, t, l, va, entry).1
    ensures HasTable(cfg, MapF(cfg, s, t, l, va, entry).0.mem, t, l, va', k) <==>
              HasTable(cfg, s.mem, t, l, va', k) || SameTo(cfg, l, k, va, va')
    decreases k - l
  {
    hide EntCnt, Index, NewTable, Reach, PoolOk, Sub, Lookup, MapF;
    if l < k {
      var i := Index(cfg, l, va);
      EntCntFits(cfg, l);
      SameToStep(cfg, l, k, va, va');
      if Index(cfg, l, va') != i {
        MapHasOther(cfg, s, t, l, va, entry, va', k);
      } else if Present(s.mem[t][i]) {
        var c := MapInto(cfg, s, t, l, va, entry);
        MapHas(cfg, s, c, l + 1, va, entry, va', k);
      } else {
        var s1, c := MapNew(cfg, s, t, l, va, entry);
        MapHas(cfg, s1, c, l + 1, va, entry, va', k);
        FreshHas(cfg, s1.mem, c, l + 1, va', k);
      }
    }
  }

  /** Off its way, a map leaves every table where it was. */
  lemma MapHasOther(cfg: RvmCfg, s: Space, t: nat, l: nat, va: nat, entry: nat, va': nat, k: nat)
    requires cfg.Valid() && l < k < cfg.Levels() && Tree(cfg, s.mem, t, l) && PoolOk(cfg, s)
    requires Index(cfg, l, va') != Index(cfg, l, va)
    ensures HasTable(cfg, MapF(cfg, s, t, l, va, entry).0.mem, t, l, va', k) <==> HasTable(cfg, s.mem, t, l, va', k)
  {
    hide EntCnt, Index, Reach, PoolOk, Sub, MapF;
    var s', i' := MapF(cfg, s, t, l, va, entry).0, Index(cfg, l, va');
    EntCntFits(cfg, l);
    MapOwnTable(cfg, s, t, l, va, entry);
    MapOthers(cfg, s, t, l, va, entry);
    SubTree(cfg, s.mem, t, l, i');
    if Present(s.mem[t][i']) {
      assert Agree(s.mem, s'.mem, Sub(cfg, s.mem, t, l, i'));
      SubIs(cfg, s.mem, t, l, i');
      FrameHas(cfg, s.mem, s'.mem, Child(cfg, s.mem[t][i']), l + 1, va', k);
    }
  }

  lemma SubIs(cfg: RvmCfg, mem: Mem, t: nat, l: nat, i: nat)
    requires cfg.Valid() && Inner(cfg, l) && t in mem && i < |mem[t]| && Present(mem[t][i])
    ensures Sub(cfg, mem, t, l, i) == Reach(cfg, mem, Child(cfg, mem[t][i]), l + 1)
  {}

  /** A map below an inner table changes at most the entry on its way. */
  lemma MapOwnTable(cfg: RvmCfg, s: Space, t: nat, l: nat, va: nat, entry: nat)
    requires cfg.Valid() && Inner(cfg, l) && Tree(cfg, s.mem, t, l) && PoolOk(cfg, s)
    ensures var mem', i := MapF(cfg, s, t, l, va, entry).0.mem, Index(cfg, l, va);
            && t in mem' && |mem'[t]| == |s.mem[t]|
            && forall j: nat :: j < |s.mem[t]| && j != i ==> mem'[t][j] == s.mem[t][j]
  {
    hide EntCnt, Index, NewTable, Reach, PoolOk, Sub, Lookup;
    var i := Index(cfg, l, va);
    EntCntFits(cfg, l);
    if Present(s.mem[t][i]) {
      var c := MapInto(cfg, s, t, l, va, entry);
    } else if s.pool != [] {
      var s1, c := MapNew(cfg, s, t, l, va, entry);
    }
  }

  /** A map that finds the next table continues there. */
  lemma MapInto(cfg: RvmCfg, s: Space, t: nat, l: nat, va: nat, entry: nat) returns (c: nat)
    requires cfg.Valid() && Inner(cfg, l) && Tree(cfg, s.mem, t, l) && PoolOk(cfg, s)
    requires Index(cfg, l, va) < |s.mem[t]| && Present(s.mem[t][Index(cfg, l, va)])
    ensures c == Child(cfg, s.mem[t][Index(cfg, l, va)]) && Tree(cfg, s.mem, c, l + 1)
    ensures MapF(cfg, s, t, l, va, entry) == MapF(cfg, s, c, l + 1, va, entry)
    ensures var s' := MapF(cfg, s, t, l, va, entry).0;
            t in s'.mem && s'.mem[t] == s.mem[t]
  {
    hide EntCnt, Index, Reach, PoolOk;
    var i := Index(cfg, l, va);
    c := Child(cfg, s.mem[t][i]);
    SubTree(cfg, s.mem, t, l, i);
    MapPasses(cfg, s, t, l + 1, va, entry, c);
  }

  /** A map that does not find the next table makes one, and continues there. */
  lemma MapNew(cfg: RvmCfg, s: Space, t: nat, l: nat, va: nat, entry: nat) returns (s1: Space, c: nat)
    requires cfg.Valid() && Inner(cfg, l) && Tree(cfg, s.mem, t, l) && PoolOk(cfg, s)
    requires Index(cfg, l, va) < |s.mem[t]| && !Present(s.mem[t][Index(cfg, l, va)])
    requires s.pool != [] || MapF(cfg, s, t, l, va, entry).1
    ensures Tree(cfg, s1.mem, c, l + 1) && PoolOk(cfg, s1)
    ensures c in s1.mem && forall q: nat :: q < |s1.mem[c]| ==> s1.mem[c][q] == 0
    ensures MapF(cfg, s, t, l, va, entry) == MapF(cfg, s1, c, l + 1, va, entry)
    ensures var s', i := MapF(cfg, s, t, l, va, entry).0, Index(cfg, l, va);
            && t in s'.mem && |s'.mem[t]| == |s.mem[t]|
            && Present(s'.mem[t][i]) && Child(cfg, s'.mem[t][i]) == c
            && forall j: nat :: j < |s.mem[t]| && j != i ==> s'.mem[t][j] == s.mem[t][j]
  {
    hide EntCnt, Index, NewTable, Reach, PoolOk;
    var i := Index(cfg, l, va);
    s1, c := NewTable(cfg, s, t, i), s.pool[0];
    NewTableKeeps(cfg, s, t, l, i);
    SubTree(cfg, s1.mem, t, l, i);
    FreshChild(cfg, s, t, l, i);
    MapPasses(cfg, s1, t, l + 1, va, entry, c);
  }

  lemma FreshHas(cfg: RvmCfg, mem: Mem, c: nat, l: nat, va: nat, k: nat)
    requires cfg.Valid() && l <= k < cfg.Levels() && c in mem && forall q: nat :: q < |mem[c]| ==> mem[c][q] == 0
    ensures HasTable(cfg, mem, c, l, va, k) <==> k == l
  {
    hide Index;
  }

  // ---- Ranges ----

  /** Some of the `n` pages from `base` on shares the way to level `k`. */
  ghost predicate Shared(cfg: RvmCfg, base: nat, n: nat, va: nat, k: nat)
    requires cfg.Valid() && k < cfg.Levels()
  {
    exists j: nat :: j < n && Steps(cfg, PageVa(cfg, base, j), k) == Steps(cfg, va, k)
  }

  lemma SharedStep(cfg: RvmCfg, base: nat, n: nat, va: nat, k: nat)
    requires cfg.Valid() && k < cfg.Levels() && n > 0
    ensures Shared(cfg, base, n, va, k) <==>
              || Shared(cfg, base, n - 1, va, k)
              || Steps(cfg, PageVa(cfg, base, n - 1), k) == Steps(cfg, va, k)
  {
    hide Steps, PageVa;
    if Shared(cfg, base, n, va, k) {
      var j: nat :| j < n && Steps(cfg, PageVa(cfg, base, j), k) == Steps(cfg, va, k);
    }
    if Shared(cfg, base, n - 1, va, k) {
      var j: nat :| j < n - 1 && Steps(cfg, PageVa(cfg, base, j), k) == Steps(cfg, va, k);
    }
  }

  lemma MapPagesNone(cfg: RvmCfg, s: Space, root: nat, base: nat, pa: nat, flags: nat)
    requires cfg.Valid() && 0 < cfg.Levels()
    ensures MapPages(cfg, s, root, base, pa, flags, 0) == (s, true)
  {}

  lemma MapPagesStep(cfg: RvmCfg, s: Space, root: nat, base: nat, pa: nat, flags: nat, n: nat) returns (entry: nat)
    requires cfg.Valid() && 0 < cfg.Levels() && n > 0
    ensures var (s1, ok) := MapPages(cfg, s, root, base, pa, flags, n - 1);
            MapPages(cfg, s, root, base, pa, flags, n) ==
              if ok then MapF(cfg, s1, root, 0, PageVa(cfg, base, n - 1), entry) else (s1, false)
  {
    hide MapF, Or;
    entry := Or(pa + (n - 1) * cfg.PageSize(), flags);
  }

  /** After mapping a range there are the tables from before and those on the range's ways. */
  lemma {:induction false} RangeHas(cfg: RvmCfg, s: Space, root: nat, base: nat, pa: nat, flags: nat, n: nat,
                                    va: nat, k: nat)
    requires cfg.Valid() && k < cfg.Levels() && Tree(cfg, s.mem, root, 0) && PoolOk(cfg, s)
    requires MapPages(cfg, s, root, base, pa, flags, n).1
    ensures HasTable(cfg, MapPages(cfg, s, root, base, pa, flags, n).0.mem, root, 0, va, k) <==>
              HasTable(cfg, s.mem, root, 0, va, k) || Shared(cfg, base, n, va, k)
    decreases n
  {
    hide MapF, Tree, PoolOk, HasTable, Steps, SameTo, Shared, MapPages, PageVa;
    if n > 0 {
      var entry := MapPagesStep(cfg, s, root, base, pa, flags, n);
      RangeHas(cfg, s, root, base, pa, flags, n - 1, va, k);
      MapPagesTree(cfg, s, root, base, pa, flags, n - 1);
      var s1, v := MapPages(cfg, s, root, base, pa, flags, n - 1).0, PageVa(cfg, base, n - 1);
      MapHas(cfg, s1, root, 0, v, entry, va, k);
      SameSteps(cfg, k, v, va);
      SharedStep(cfg, base, n, va, k);
    } else {
      SharedNone(cfg, base, va, k);
      MapPagesNone(cfg, s, root, base, pa, flags);
    }
  }

  lemma SharedNone(cfg: RvmCfg, base: nat, va: nat, k: nat)
    requires cfg.Valid() && k < cfg.Levels()
    ensures !Shared(cfg, base, 0, va, k)
  {}

  lemma StepsLength(cfg: RvmCfg, va: nat, k: nat, va': nat, k': nat)
    requires cfg.Valid() && k <= cfg.Levels() && k' <= cfg.Levels() && Steps(cfg, va, k) == Steps(cfg, va', k')
    ensures k == k'
  {
    assert |Steps(cfg, va, k)| == k && |Steps(cfg, va', k')| == k';
  }

  /** A table absent for `va` is absent for a range exactly when a page of it shares the way. */
  lemma AbsentAt(cfg: RvmCfg, mem: Mem, root: nat, v: nat, va: nat, k: nat)
    requires cfg.Valid() && 1 <= k < cfg.Levels() && !HasTable(cfg, mem, root, 0, va, k)
    ensures Steps(cfg, va, k) in AbsentFor(cfg, mem, root, v) <==> Steps(cfg, v, k) == Steps(cfg, va, k)
  {
    hide HasTable, Steps, SameTo;
    if Steps(cfg, v, k) == Steps(cfg, va, k) {
      SameSteps(cfg, k, v, va);
      HasSame(cfg, mem, root, 0, v, va, k);
    }
    if Steps(cfg, va, k) in AbsentFor(cfg, mem, root, v) {
      var k': nat :|
        1 <= k' < cfg.Levels() && !HasTable(cfg, mem, root, 0, v, k') && Steps(cfg, v, k') == Steps(cfg, va, k);
      StepsLength(cfg, v, k', va, k);
    }
  }

  lemma {:induction false} AbsentShared(cfg: RvmCfg, mem: Mem, root: nat, base: nat, n: nat, va: nat, k: nat)
    requires cfg.Valid() && 1 <= k < cfg.Levels() && !HasTable(cfg, mem, root, 0, va, k)
    ensures Steps(cfg, va, k) in Absent(cfg, mem, root, base, n) <==> Shared(cfg, base, n, va, k)
    decreases n
  {
    hide HasTable, Steps, AbsentFor, Shared, PageVa;
    if n > 0 {
      AbsentShared(cfg, mem, root, base, n - 1, va, k);
      AbsentAt(cfg, mem, root, PageVa(cfg, base, n - 1), va, k);
      SharedStep(cfg, base, n, va, k);
    } else {
      SharedNone(cfg, base, va, k);
    }
  }

  /** What the next page still needs after the pages before it. */
  lemma StillAbsent(cfg: RvmCfg, s: Space, root: nat, base: nat, pa: nat, flags: nat, n: nat, va: nat)
    requires cfg.Valid() && 0 < cfg.Levels() && Tree(cfg, s.mem, root, 0) && PoolOk(cfg, s)
    requires MapPages(cfg, s, root, base, pa, flags, n).1
    ensures AbsentFor(cfg, MapPages(cfg, s, root, base, pa, flags, n).0.mem, root, va) ==
              AbsentFor(cfg, s.mem, root, va) - Absent(cfg, s.mem, root, base, n)
  {
    hide MapPages, Tree, PoolOk, HasTable, Steps, Shared, Absent;
    var mem' := MapPages(cfg, s, root, base, pa, flags, n).0.mem;
    forall k: nat | 1 <= k < cfg.Levels()
      ensures !HasTable(cfg, mem', root, 0, va, k) <==>
                !HasTable(cfg, s.mem, root, 0, va, k) && Steps(cfg, va, k) !in Absent(cfg, s.mem, root, base, n)
    {
      RangeHas(cfg, s, root, base, pa, flags, n, va, k);
      if !HasTable(cfg, s.mem, root, 0, va, k) { AbsentShared(cfg, s.mem, root, base, n, va, k); }
    }
  }

  lemma PageNeeds(cfg: RvmCfg, s: Space, root: nat, va: nat, entry: nat)
    requires cfg.Valid() && 0 < cfg.Levels() && Tree(cfg, s.mem, root, 0) && PoolOk(cfg, s)
    ensures MapF(cfg, s, root, 0, va, entry).1 <==> |s.pool| >= |AbsentFor(cfg, s.mem, root, va)|
    ensures MapF(cfg, s, root, 0, va, entry).1 ==>
              |MapF(cfg, s, root, 0, va, entry).0.pool| == |s.pool| - |AbsentFor(cfg, s.mem, root, va)|
  {
    hide MapF, Tree, PoolOk, AbsentFor, Missing;
    CountAbsentFor(cfg, s.mem, root, va);
    MapSucceedsIff(cfg, s, root, 0, va, entry);
    if MapF(cfg, s, root, 0, va, entry).1 { MapTakes(cfg, s, root, 0, va, entry); }
  }

  lemma UnionCard<T>(a: set<T>, b: set<T>)
    ensures |a + b| == |a| + |b - a|
  {
    assert a + b == a + (b - a);
  }

  /** Mapping `n` pages succeeds exactly when the pool has a frame for every absent table,
      and takes that many. */
  lemma {:induction false} MapPagesNeed(cfg: RvmCfg, s: Space, root: nat, base: nat, pa: nat, flags: nat, n: nat)
    requires cfg.Valid() && 0 < cfg.Levels() && Tree(cfg, s.mem, root, 0) && PoolOk(cfg, s)
    ensures MapPages(cfg, s, root, base, pa, flags, n).1 <==> |s.pool| >= |Absent(cfg, s.mem, root, base, n)|
    ensures MapPages(cfg, s, root, base, pa, flags, n).1 ==>
              |MapPages(cfg, s, root, base, pa, flags, n).0.pool| == |s.pool| - |Absent(cfg, s.mem, root, base, n)|
    decreases n
  {
    hide MapF, Tree, PoolOk, AbsentFor, MapPages, PageVa;
    if n > 0 {
      var entry := MapPagesStep(cfg, s, root, base, pa, flags, n);
      MapPagesNeed(cfg, s, root, base, pa, flags, n - 1);
      var (s1, ok) := MapPages(cfg, s, root, base, pa, flags, n - 1);
      var v := PageVa(cfg, base, n - 1);
      UnionCard(Absent(cfg, s.mem, root, base, n - 1), AbsentFor(cfg, s.mem, root, v));
      if ok {
        MapPagesTree(cfg, s, root, base, pa, flags, n - 1);
        StillAbsent(cfg, s, root, base, pa, flags, n - 1, v);
        PageNeeds(cfg, s1, root, v, entry);
      }
    } else {
      MapPagesNone(cfg, s, root, base, pa, flags);
    }
  }

  /** No range needs more than the levels below the root for each of its pages. */
  lemma {:induction false} AbsentBound(cfg: RvmCfg, mem: Mem, root: nat, base: nat, n: nat)
    requires cfg.Valid() && 0 < cfg.Levels()
    ensures |Absent(cfg, mem, root, base, n)| <= n * (cfg.Levels() - 1)
  {
    hide AbsentFor, PageVa, RvmCfg.Levels;
    if n > 0 {
      var v := PageVa(cfg, base, n - 1);
      AbsentBound(cfg, mem, root, base, n - 1);
      CountAbsentFor(cfg, mem, root, v);
      var a, b := Absent(cfg, mem, root, base, n - 1), AbsentFor(cfg, mem, root, v);
      UnionCard(a, b);
      FewerOf(b, a);
      OneMore(n - 1, cfg.Levels() - 1);
    }
  }

  lemma OneMore(n: nat, m: nat)
    ensures (n + 1) * m == n * m + m
  {}

  lemma FewerOf<T>(b: set<T>, a: set<T>)
    ensures |b - a| <= |b|
  {
    assert b == (b - a) + (b * a);
  }

  /** `map_range` succeeds exactly when the pool has a frame for every table absent on the
      ways to the pages the byte range overlaps; so it does whenever the pool has one for
      each level below the root and each page. */
  lemma MapRangeSucceedsIff(cfg: RvmCfg, s: Space, root: nat, va: nat, pa: nat, size: nat, flags: nat)
    requires cfg.Valid() && 0 < cfg.Levels() && Tree(cfg, s.mem, root, 0) && PoolOk(cfg, s)
    ensures var page := cfg.PageSize();
            var n := RangePages(va, size, page);
            && (MapRangeF(cfg, s, root, va, pa, size, flags).1 <==>
                  |s.pool| >= |Absent(cfg, s.mem, root, AlignDown(va, page), n)|)
            && (|s.pool| >= n * (cfg.Levels() - 1) ==> MapRangeF(cfg, s, root, va, pa, size, flags).1)
  {
    hide MapPages, Tree, PoolOk, Absent, AlignDown, RangePages;
    var page := cfg.PageSize();
    var start, n := AlignDown(va, page), RangePages(va, size, page);
    MapPagesNeed(cfg, s, root, start, AlignDown(pa, page), flags, n);
    AbsentBound(cfg, s.mem, root, start, n);
  }
}
