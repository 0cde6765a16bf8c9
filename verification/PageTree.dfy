/** Page tables as a tree in memory, the tables a tree reaches, and the flat map from
    virtual pages to entries that it denotes. */
module PageTree {
  import opened Align
  import opened Bits
  import opened PageCfg

  /** Table address to table entries. */
  type Mem = map<nat, seq<nat>>

  function Child(cfg: RvmCfg, entry: nat): nat { AlignDown(entry, cfg.PageSize()) }

  predicate Present(entry: nat) { entry % 2 == 1 }

  predicate Inner(cfg: RvmCfg, l: nat)
    requires cfg.Valid()
  {
    l + 1 < cfg.Levels()
  }

  ghost predicate TableOk(cfg: RvmCfg, mem: Mem, t: nat)
    requires cfg.Valid()
  {
    t in mem && |mem[t]| == TableLen(cfg) && t % cfg.PageSize() == 0
  }

  /** The tables below entry `i` of table `t`. */
  ghost function Sub(cfg: RvmCfg, mem: Mem, t: nat, l: nat, i: nat): set<nat>
    requires cfg.Valid() && l < cfg.Levels()
    decreases cfg.Levels() - l, 0
  {
    if Inner(cfg, l) && t in mem && i < |mem[t]| && Present(mem[t][i])
    then Reach(cfg, mem, Child(cfg, mem[t][i]), l + 1) else {}
  }

  /** Table `t` and all tables below it. */
  ghost function Reach(cfg: RvmCfg, mem: Mem, t: nat, l: nat): set<nat>
    requires cfg.Valid() && l < cfg.Levels()
    decreases cfg.Levels() - l, 1
  {
    {t} + set i: nat, x: nat | i < EntCnt(cfg, l) && x in Sub(cfg, mem, t, l, i) :: x
  }

  ghost predicate Branch(cfg: RvmCfg, mem: Mem, t: nat, l: nat, i: nat)
    requires cfg.Valid() && Inner(cfg, l)
    decreases cfg.Levels() - l, 0
  {
    && t in mem && i < |mem[t]|
    && (mem[t][i] == 0 ||
        (Present(mem[t][i]) && Tree(cfg, mem, Child(cfg, mem[t][i]), l + 1) && t !in Sub(cfg, mem, t, l, i)))
  }

  /** Every inner entry is zero or leads to a tree of its own: each table below `t` has
      exactly one parent entry. */
  ghost predicate Tree(cfg: RvmCfg, mem: Mem, t: nat, l: nat)
    requires cfg.Valid() && l < cfg.Levels()
    decreases cfg.Levels() - l, 1
  {
    && TableOk(cfg, mem, t)
    && (Inner(cfg, l) ==>
          && (forall i: nat {:trigger Branch(cfg, mem, t, l, i)} :: i < EntCnt(cfg, l) ==> Branch(cfg, mem, t, l, i))
          && (forall i: nat, j: nat {:trigger Sub(cfg, mem, t, l, i), Sub(cfg, mem, t, l, j)} ::
                i < j < EntCnt(cfg, l) ==> Sub(cfg, mem, t, l, i) !! Sub(cfg, mem, t, l, j)))
  }

  /** The leaf entry for `va`, or 0 if the way to it is not present. */
  function Lookup(cfg: RvmCfg, mem: Mem, t: nat, l: nat, va: nat): nat
    requires cfg.Valid() && l < cfg.Levels()
    decreases cfg.Levels() - l
  {
    var i := Index(cfg, l, va);
    if t !in mem || i >= |mem[t]| then 0
    else if !Inner(cfg, l) then mem[t][i]
    else if Present(mem[t][i]) then Lookup(cfg, mem, Child(cfg, mem[t][i]), l + 1, va)
    else 0
  }

  ghost predicate SameLookups(cfg: RvmCfg, mem: Mem, mem': Mem, t: nat, l: nat)
    requires cfg.Valid() && l < cfg.Levels()
  {
    forall va: nat :: Lookup(cfg, mem', t, l, va) == Lookup(cfg, mem, t, l, va)
  }

  ghost predicate Agree(mem: Mem, mem': Mem, s: set<nat>) {
    forall x :: x in s ==> x in mem && x in mem' && mem[x] == mem'[x]
  }

  lemma SubInReach(cfg: RvmCfg, mem: Mem, t: nat, l: nat, i: nat)
    requires cfg.Valid() && l < cfg.Levels() && i < EntCnt(cfg, l)
    ensures Sub(cfg, mem, t, l, i) <= Reach(cfg, mem, t, l)
  {}

  lemma ReachWitness(cfg: RvmCfg, mem: Mem, t: nat, l: nat, x: nat) returns (i: nat)
    requires cfg.Valid() && l < cfg.Levels() && x in Reach(cfg, mem, t, l) && x != t
    ensures i < EntCnt(cfg, l) && x in Sub(cfg, mem, t, l, i)
  {
    i :| i < EntCnt(cfg, l) && x in Sub(cfg, mem, t, l, i);
  }

  lemma TreeTable(cfg: RvmCfg, mem: Mem, t: nat, l: nat)
    requires cfg.Valid() && l < cfg.Levels() && Tree(cfg, mem, t, l)
    ensures TableOk(cfg, mem, t)
  {}

  lemma SubTree(cfg: RvmCfg, mem: Mem, t: nat, l: nat, i: nat)
    requires cfg.Valid() && Inner(cfg, l) && Tree(cfg, mem, t, l) && i < EntCnt(cfg, l)
    ensures i < |mem[t]| && Branch(cfg, mem, t, l, i) && t !in Sub(cfg, mem, t, l, i)
  {
    EntCntFits(cfg, l);
    assert Branch(cfg, mem, t, l, i);
  }

  /** All tables a tree reaches exist. */
  lemma {:induction false} ReachExists(cfg: RvmCfg, mem: Mem, t: nat, l: nat)
    requires cfg.Valid() && l < cfg.Levels() && Tree(cfg, mem, t, l)
    ensures forall x :: x in Reach(cfg, mem, t, l) ==> x in mem && TableOk(cfg, mem, x)
    decreases cfg.Levels() - l
  {
    forall x | x in Reach(cfg, mem, t, l) ensures TableOk(cfg, mem, x) {
      if x != t {
        var i := ReachWitness(cfg, mem, t, l, x);
        SubTree(cfg, mem, t, l, i);
        ReachExists(cfg, mem, Child(cfg, mem[t][i]), l + 1);
      }
    }
  }

  // ---- Framing ----

  /** A tree is a function of the tables it reaches. */
  lemma {:induction false} FrameTree(cfg: RvmCfg, mem: Mem, mem': Mem, t: nat, l: nat)
    requires cfg.Valid() && l < cfg.Levels() && Tree(cfg, mem, t, l)
    requires Agree(mem, mem', Reach(cfg, mem, t, l))
    ensures Tree(cfg, mem', t, l) && Reach(cfg, mem', t, l) == Reach(cfg, mem, t, l)
    ensures SameLookups(cfg, mem, mem', t, l)
    decreases cfg.Levels() - l
  {
    hide Index, EntCnt;
    assert t in Reach(cfg, mem, t, l);
    if Inner(cfg, l) {
      forall i: nat | i < EntCnt(cfg, l)
        ensures Sub(cfg, mem', t, l, i) == Sub(cfg, mem, t, l, i) && Branch(cfg, mem', t, l, i)
        ensures Present(mem[t][i]) ==> SameLookups(cfg, mem, mem', Child(cfg, mem[t][i]), l + 1)
      {
        SubTree(cfg, mem, t, l, i);
        SubInReach(cfg, mem, t, l, i);
        if Present(mem[t][i]) {
          FrameTree(cfg, mem, mem', Child(cfg, mem[t][i]), l + 1);
        }
      }
      assert Tree(cfg, mem', t, l);
      ReachEqual(cfg, mem, mem', t, l);
      forall va: nat ensures Lookup(cfg, mem', t, l, va) == Lookup(cfg, mem, t, l, va) {
        SubTree(cfg, mem, t, l, Index(cfg, l, va));
      }
    } else {
      assert forall i: nat :: Sub(cfg, mem', t, l, i) == {} == Sub(cfg, mem, t, l, i);
      ReachEqual(cfg, mem, mem', t, l);
    }
  }

  lemma ReachEqual(cfg: RvmCfg, mem: Mem, mem': Mem, t: nat, l: nat)
    requires cfg.Valid() && l < cfg.Levels()
    requires forall i: nat :: i < EntCnt(cfg, l) ==> Sub(cfg, mem', t, l, i) == Sub(cfg, mem, t, l, i)
    ensures Reach(cfg, mem', t, l) == Reach(cfg, mem, t, l)
  {
    hide EntCnt;
    forall x ensures x in Reach(cfg, mem', t, l) <==> x in Reach(cfg, mem, t, l) {
      if x in Reach(cfg, mem', t, l) && x != t {
        var i := ReachWitness(cfg, mem', t, l, x);
        assert x in Sub(cfg, mem, t, l, i);
      }
      if x in Reach(cfg, mem, t, l) && x != t {
        var i := ReachWitness(cfg, mem, t, l, x);
        assert x in Sub(cfg, mem', t, l, i);
      }
    }
  }

  /** Changing one inner entry to zero or to the top of a fresh or changed subtree. */
  lemma Regraft(cfg: RvmCfg, mem: Mem, mem': Mem, t: nat, l: nat, i: nat)
    requires cfg.Valid() && Inner(cfg, l) && Tree(cfg, mem, t, l) && i < EntCnt(cfg, l)
    requires TableOk(cfg, mem', t) && i < |mem'[t]| && mem'[t] == mem[t][i := mem'[t][i]]
    requires Branch(cfg, mem', t, l, i)
    requires forall j: nat {:trigger Sub(cfg, mem, t, l, j)} :: j < EntCnt(cfg, l) && j != i ==>
               Agree(mem, mem', Sub(cfg, mem, t, l, j)) && Sub(cfg, mem, t, l, j) !! Sub(cfg, mem', t, l, i)
    ensures Tree(cfg, mem', t, l)
    ensures forall j: nat {:trigger Sub(cfg, mem', t, l, j)} :: j < EntCnt(cfg, l) && j != i ==>
              Sub(cfg, mem', t, l, j) == Sub(cfg, mem, t, l, j)
    ensures forall va: nat :: Index(cfg, l, va) != i ==> Lookup(cfg, mem', t, l, va) == Lookup(cfg, mem, t, l, va)
  {
    hide Index, EntCnt;
    forall j: nat | j < EntCnt(cfg, l) && j != i
      ensures Sub(cfg, mem', t, l, j) == Sub(cfg, mem, t, l, j) && Branch(cfg, mem', t, l, j)
      ensures Present(mem[t][j]) ==> SameLookups(cfg, mem, mem', Child(cfg, mem[t][j]), l + 1)
    {
      SubTree(cfg, mem, t, l, j);
      assert mem'[t][j] == mem[t][j];
      if Present(mem[t][j]) {
        assert Agree(mem, mem', Sub(cfg, mem, t, l, j));
        FrameTree(cfg, mem, mem', Child(cfg, mem[t][j]), l + 1);
      }
    }
    forall j: nat, k: nat | j < k < EntCnt(cfg, l)
      ensures Sub(cfg, mem', t, l, j) !! Sub(cfg, mem', t, l, k)
    {
      assert Sub(cfg, mem, t, l, j) !! Sub(cfg, mem, t, l, k);
    }
    forall va: nat | Index(cfg, l, va) != i ensures Lookup(cfg, mem', t, l, va) == Lookup(cfg, mem, t, l, va) {
      SubTree(cfg, mem, t, l, Index(cfg, l, va));
    }
  }

  /** An all-zero table is a tree without translations. */
  lemma ZeroTree(cfg: RvmCfg, mem: Mem, t: nat, l: nat)
    requires cfg.Valid() && l < cfg.Levels() && TableOk(cfg, mem, t)
    requires forall i: nat :: i < EntCnt(cfg, l) && i < |mem[t]| ==> mem[t][i] == 0
    ensures Tree(cfg, mem, t, l) && Reach(cfg, mem, t, l) == {t}
    ensures forall va: nat :: Lookup(cfg, mem, t, l, va) == 0
  {
    EntCntFits(cfg, l);
    forall i: nat | i < EntCnt(cfg, l) ensures Sub(cfg, mem, t, l, i) == {} {
      assert mem[t][i] == 0;
    }
  }

  lemma {:induction false} LookupSame(cfg: RvmCfg, mem: Mem, t: nat, l: nat, va: nat, va': nat)
    requires cfg.Valid() && l < cfg.Levels() && SameFrom(cfg, l, va, va')
    ensures Lookup(cfg, mem, t, l, va) == Lookup(cfg, mem, t, l, va')
    decreases cfg.Levels() - l
  {
    hide Index, EntCnt;
    var i := Index(cfg, l, va);
    assert i == Index(cfg, l, va');
    if Inner(cfg, l) && t in mem && i < |mem[t]| && Present(mem[t][i]) {
      LookupSame(cfg, mem, Child(cfg, mem[t][i]), l + 1, va, va');
    }
  }
}
