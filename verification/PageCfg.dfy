/** Geometry of the page tables: levels, shifts and indices for any page size and any
    width of virtual addresses. */
module PageCfg {
  import opened Align
  import opened Bits

  /** Page shift, bits of a virtual address, and the flag bits of a table entry. */
  datatype RvmCfg = RvmCfg(pshift: nat, vaBits: nat, next: nat) {
    ghost predicate Valid() {
      && (pshift == 12 || pshift == 14 || pshift == 16)
      && pshift < vaBits <= 64
      && next % 2 == 1 && next < PageSize()
    }

    function PageSize(): nat { Pow2(pshift) }
    function IndexBits(): int { pshift - 3 }

    function Levels(): int
      requires IndexBits() > 0
    {
      (vaBits - pshift + IndexBits() - 1) / IndexBits()
    }

    function Shift(level: nat): int
      requires IndexBits() > 0
    {
      pshift + (Levels() - level - 1) * IndexBits()
    }
  }

  lemma {:induction false} LevelBits(cfg: RvmCfg)
    requires cfg.Valid()
    ensures cfg.Levels() >= 1
    ensures (cfg.Levels() - 1) * cfg.IndexBits() < cfg.vaBits - cfg.pshift <= cfg.Levels() * cfg.IndexBits()
    ensures 1 <= cfg.vaBits - cfg.Shift(0) <= cfg.IndexBits()
  {
    var ib := cfg.IndexBits();
    assert ib == 9 || ib == 11 || ib == 13;
  }

  lemma ShiftBound(cfg: RvmCfg, level: nat)
    requires cfg.Valid() && level < cfg.Levels()
    ensures cfg.Shift(level) >= cfg.pshift
    ensures level + 1 < cfg.Levels() ==> cfg.Shift(level) == cfg.Shift(level + 1) + cfg.IndexBits()
  {
    var ib := cfg.IndexBits();
    assert ib == 9 || ib == 11 || ib == 13;
  }

  /** Number of entries a table uses: the root only covers the remaining bits. */
  function EntCnt(cfg: RvmCfg, level: nat): (n: nat)
    requires cfg.Valid() && level < cfg.Levels()
    ensures n > 0
  {
    LevelBits(cfg);
    Pow2(if level == 0 then cfg.vaBits - cfg.Shift(0) else cfg.IndexBits())
  }

  function Index(cfg: RvmCfg, level: nat, va: nat): (i: nat)
    requires cfg.Valid() && level < cfg.Levels()
    ensures i < EntCnt(cfg, level)
  {
    ShiftBound(cfg, level);
    (va / Pow2(cfg.Shift(level))) % EntCnt(cfg, level)
  }

  /** Number of entries a table has room for. */
  function TableLen(cfg: RvmCfg): nat
    requires cfg.Valid()
  {
    Pow2(cfg.IndexBits())
  }

  lemma {:induction false} Pow2Monotone(m: nat, n: nat)
    requires m <= n
    ensures Pow2(m) <= Pow2(n)
  {
    if m < n { Pow2Monotone(m, n - 1); }
  }

  lemma EntCntFits(cfg: RvmCfg, level: nat)
    requires cfg.Valid() && level < cfg.Levels()
    ensures EntCnt(cfg, level) <= TableLen(cfg)
    ensures level == 0 ==> EntCnt(cfg, 0) >= 2 && EntCnt(cfg, 0) == 2 * (EntCnt(cfg, 0) / 2)
  {
    LevelBits(cfg);
    var bits := if level == 0 then cfg.vaBits - cfg.Shift(0) else cfg.IndexBits();
    hide RvmCfg.Levels, RvmCfg.Shift;
    Pow2Monotone(bits, cfg.IndexBits());
    HalfOfPow(bits);
  }

  lemma {:induction false} HalfOfPow(n: nat)
    requires n >= 1
    ensures Pow2(n) >= 2 && Pow2(n) == 2 * (Pow2(n) / 2)
  {
    PowStep(n);
    hide Pow2;
    EvenHalf(Pow2(n), Pow2(n - 1));
  }

  lemma PowStep(n: nat)
    requires n >= 1
    ensures Pow2(n) == 2 * Pow2(n - 1)
  {}

  lemma EvenHalf(x: nat, m: nat)
    requires x == 2 * m && m >= 1
    ensures x >= 2 && x == 2 * (x / 2)
  {}

  /** Both addresses take the same way from `level` downwards. */
  ghost predicate SameFrom(cfg: RvmCfg, level: nat, va: nat, va': nat)
    requires cfg.Valid()
  {
    forall k: nat {:trigger Index(cfg, k, va)} :: level <= k < cfg.Levels() ==> Index(cfg, k, va) == Index(cfg, k, va')
  }

  /** The virtual page number, as far as the tables distinguish it. */
  function Vpn(cfg: RvmCfg, va: nat): nat
    requires cfg.Valid()
  {
    (va / cfg.PageSize()) % Pow2(cfg.vaBits - cfg.pshift)
  }

  /** The index at a level is a digit of the page number. */
  lemma IndexDigit(cfg: RvmCfg, level: nat, va: nat)
    requires cfg.Valid() && level < cfg.Levels()
    ensures (cfg.Levels() - level - 1) * cfg.IndexBits() >= 0
    ensures Index(cfg, level, va) ==
              (va / cfg.PageSize()) / Pow2((cfg.Levels() - level - 1) * cfg.IndexBits()) % EntCnt(cfg, level)
  {
    var k := (cfg.Levels() - level - 1) * cfg.IndexBits();
    ShiftBound(cfg, level);
    Pow2Add(cfg.pshift, k);
    DivDiv(va, cfg.PageSize(), Pow2(k));
  }

  /** Below the root, agreeing indices mean agreeing low digits of the page number. */
  lemma {:induction false} SameFromDigits(cfg: RvmCfg, level: nat, va: nat, va': nat)
    requires cfg.Valid() && 1 <= level <= cfg.Levels()
    ensures (cfg.Levels() - level) * cfg.IndexBits() >= 0
    ensures SameFrom(cfg, level, va, va') <==>
              (va / cfg.PageSize()) % Pow2((cfg.Levels() - level) * cfg.IndexBits()) ==
              (va' / cfg.PageSize()) % Pow2((cfg.Levels() - level) * cfg.IndexBits())
    decreases cfg.Levels() - level
  {
    hide Index, SameFrom, Pow2;
    var n, n' := va / cfg.PageSize(), va' / cfg.PageSize();
    if level == cfg.Levels() {
      assert Pow2(0) == 1 by { PowZero(); }
      assert SameFrom(cfg, level, va, va') by { SameFromEnd(cfg, va, va'); }
    } else {
      var ib := cfg.IndexBits();
      var low := (cfg.Levels() - level - 1) * ib;
      assert (cfg.Levels() - level) * ib == low + ib;
      DigitStep(n, n', low, ib);
      IndexDigit(cfg, level, va);
      IndexDigit(cfg, level, va');
      SameFromDigits(cfg, level + 1, va, va');
      SameFromStep(cfg, level, va, va');
    }
  }

  lemma PowZero()
    ensures Pow2(0) == 1
  {}

  lemma SameFromEnd(cfg: RvmCfg, va: nat, va': nat)
    requires cfg.Valid()
    ensures cfg.Levels() >= 0 && SameFrom(cfg, cfg.Levels(), va, va')
  {
    LevelBits(cfg);
  }

  lemma SameFromStep(cfg: RvmCfg, level: nat, va: nat, va': nat)
    requires cfg.Valid() && level < cfg.Levels()
    ensures SameFrom(cfg, level, va, va') <==>
              Index(cfg, level, va) == Index(cfg, level, va') && SameFrom(cfg, level + 1, va, va')
  {}

  /** The indices identify the page: two addresses take the same way through all levels
      exactly when their page numbers agree. */
  lemma SamePage(cfg: RvmCfg, va: nat, va': nat)
    requires cfg.Valid()
    ensures SameFrom(cfg, 0, va, va') <==> Vpn(cfg, va) == Vpn(cfg, va')
  {
    hide Index, SameFrom, Pow2;
    LevelBits(cfg);
    var low := (cfg.Levels() - 1) * cfg.IndexBits();
    var rest := cfg.vaBits - cfg.Shift(0);
    assert cfg.vaBits - cfg.pshift == low + rest;
    DigitStep(va / cfg.PageSize(), va' / cfg.PageSize(), low, rest);
    IndexDigit(cfg, 0, va);
    IndexDigit(cfg, 0, va');
    SameFromDigits(cfg, 1, va, va');
    SameFromStep(cfg, 0, va, va');
  }

  /** The number whose digits are the indices from the root down to level `l - 1`. */
  function FromIndices(cfg: RvmCfg, va: nat, l: nat): nat
    requires cfg.Valid() && l <= cfg.Levels()
  {
    if l == 0 then 0 else FromIndices(cfg, va, l - 1) * Pow2(cfg.IndexBits()) + Index(cfg, l - 1, va)
  }

  /** The upper part of the page number. */
  lemma {:induction false} IndicesAbove(cfg: RvmCfg, va: nat, l: nat)
    requires cfg.Valid() && 1 <= l <= cfg.Levels()
    ensures (cfg.Levels() - l) * cfg.IndexBits() >= 0
    ensures FromIndices(cfg, va, l) == Vpn(cfg, va) / Pow2((cfg.Levels() - l) * cfg.IndexBits())
  {
    hide Index, Pow2, EntCnt, Vpn;
    var ib, v := cfg.IndexBits(), Vpn(cfg, va);
    var low := (cfg.Levels() - l) * ib;
    IndexOfPage(cfg, l - 1, va);
    if l == 1 {
      assert FromIndices(cfg, va, 0) == 0;
    } else {
      IndicesAbove(cfg, va, l - 1);
      assert (cfg.Levels() - (l - 1)) * ib == low + ib;
      Pow2Add(low, ib);
      DivDiv(v, Pow2(low), Pow2(ib));
      QuotRem(v / Pow2(low), Pow2(ib));
    }
  }

  /** The index at a level is a digit of the page number, and at the root its upper end. */
  lemma IndexOfPage(cfg: RvmCfg, level: nat, va: nat)
    requires cfg.Valid() && level < cfg.Levels()
    ensures (cfg.Levels() - level - 1) * cfg.IndexBits() >= 0
    ensures var high := Vpn(cfg, va) / Pow2((cfg.Levels() - level - 1) * cfg.IndexBits());
            Index(cfg, level, va) == if level == 0 then high else high % Pow2(cfg.IndexBits())
  {
    hide Pow2, Index;
    var n, low, ib := va / cfg.PageSize(), (cfg.Levels() - level - 1) * cfg.IndexBits(), cfg.IndexBits();
    var width := cfg.vaBits - cfg.pshift;
    LevelBits(cfg);
    IndexDigit(cfg, level, va);
    if level == 0 {
      var rest := cfg.vaBits - cfg.Shift(0);
      assert width == low + rest;
      Pow2Add(low, rest);
      ModSplit(n, Pow2(low), Pow2(rest));
      var d, r := n / Pow2(low) % Pow2(rest), n % Pow2(low);
      DivUnique(Vpn(cfg, va), Pow2(low), d, r);
    } else {
      DigitBelow(cfg, level);
      DivUnique(Vpn(cfg, va), Pow2(width), 0, Vpn(cfg, va));
      LowBits(n, Vpn(cfg, va), low, ib, width);
    }
  }

  lemma DigitBelow(cfg: RvmCfg, level: nat)
    requires cfg.Valid() && 0 < level < cfg.Levels()
    ensures (cfg.Levels() - level - 1) * cfg.IndexBits() + cfg.IndexBits() <= cfg.vaBits - cfg.pshift
  {
    LevelBits(cfg);
    hide RvmCfg.Levels, RvmCfg.Shift;
    MulGap(cfg.Levels() - level - 1, cfg.Levels() - 1, cfg.IndexBits());
  }

  /** The indices of an address, read as digits from the root down, spell its page number. */
  lemma IndicesSpell(cfg: RvmCfg, va: nat)
    requires cfg.Valid()
    ensures cfg.Levels() >= 1 && FromIndices(cfg, va, cfg.Levels()) == Vpn(cfg, va)
  {
    hide FromIndices, Vpn, Pow2;
    LevelBits(cfg);
    IndicesAbove(cfg, va, cfg.Levels());
    PowZero();
  }

  /** Masking the offset bits of an address does not change its indices. */
  lemma IndexAligned(cfg: RvmCfg, level: nat, va: nat)
    requires cfg.Valid() && level < cfg.Levels()
    ensures Index(cfg, level, AlignDown(va, cfg.PageSize())) == Index(cfg, level, va)
  {
    hide AlignDown, Index, EntCnt, Pow2, RvmCfg.Levels, RvmCfg.Shift;
    AlignedQuot(va, cfg.PageSize());
    IndexDigit(cfg, level, va);
    IndexDigit(cfg, level, AlignDown(va, cfg.PageSize()));
  }

  lemma AlignedQuot(va: nat, page: nat)
    requires page > 0
    ensures AlignDown(va, page) / page == va / page
  {
    MulMod(va / page, page);
  }
}
