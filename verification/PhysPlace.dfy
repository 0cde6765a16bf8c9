/** Where an allocation ends up, and how large the record table is afterwards. */
module PhysPlace {
  import opened Align
  import opened RamTable
  import opened Repainting
  import opened PhysSpec
  import opened PhysResize
  import opened PhysAllocate
  import opened PhysCanon
  import opened PhysFree
  import opened Wrappers

  // ---- First fit ----

  /** `size` bytes from `a` on would fit into the free record `b`. */
  predicate FitsIn(b: RAMBlock, ty: RAMType, align: nat, size: nat, a: nat) {
    && b.Valid() && !b.used && b.ty == ty
    && Aligned(a, align) && b.addr <= a && a + size <= b.End()
  }

  /** `a` is the least aligned address in the first record of the table that has any. */
  ghost predicate FirstFit(t: Table, ty: RAMType, align: nat, size: nat, i: nat, a: nat) {
    && i < |t| && FitsIn(t[i], ty, align, size, a)
    && (forall a': nat :: FitsIn(t[i], ty, align, size, a') ==> a <= a')
    && (forall k: nat, a': nat :: k < i ==> !FitsIn(t[k], ty, align, size, a'))
  }

  /** A record has room at an aligned address exactly when it has at the first one. */
  lemma FitsFirst(b: RAMBlock, ty: RAMType, align: nat, size: nat, a: nat)
    requires FitsIn(b, ty, align, size, a)
    ensures AlignUp(b.addr, align) <= a && FitsIn(b, ty, align, size, AlignUp(b.addr, align))
  {
    AlignUpLeast(b.addr, align);
  }

  /** The search takes the first record of the table that has room, and the least address in
      it; it fails exactly when no record has. */
  lemma FindsFirstFit(t: Table, params: AllocParams, page: nat)
    ensures var size := SizeAlign(params.size, page);
            match FindFreeRam(t, params, page)
            case Some(p) =>
              p.size == size && exists i: nat :: FirstFit(t, params.fromType, params.align, size, i, p.addr)
            case None => forall k: nat, a: nat :: k < |t| ==> !FitsIn(t[k], params.fromType, params.align, size, a)
  {
    hide SizeAlign, AlignUp, Aligned;
    var args := params.Build(page);
    var i := First(t, FreeFilter(args));
    forall k: nat, a: nat | k < i && k < |t| ensures !FitsIn(t[k], params.fromType, params.align, args.size, a) {
      if FitsIn(t[k], params.fromType, params.align, args.size, a) {
        FitsFirst(t[k], params.fromType, params.align, args.size, a);
      }
    }
    if i < |t| {
      var a := AlignUp(t[i].addr, args.align);
      AlignUpLeast(t[i].addr, args.align);
      assert FirstFit(t, params.fromType, params.align, args.size, i, a);
    }
  }

  /** A successful request for an address gets the least aligned one that is not below it;
      any other gets the first fit of the table as it was. */
  lemma AllocWhere(st: AllocState, params: AllocParams)
    requires BasePage(st.page) && AllocF(st, params).1.Some?
    ensures var p, size := AllocF(st, params).1.value, SizeAlign(params.size, st.page);
            && p.size == size
            && match params.addr
               case Some(addr) =>
                 && p.addr >= addr && Aligned(p.addr, params.align)
                 && forall m: nat :: m >= addr && Aligned(m, params.align) ==> p.addr <= m
               case None =>
                 exists i: nat :: FirstFit(st.blocks, params.fromType, params.align, size, i, p.addr)
  {
    hide AddQuiet, FindFreeRam, Split, MakeRoom, SizeAlign, Aligned, AlignUp, FirstFit;
    match params.addr {
      case Some(addr) => AlignUpLeast(addr, params.align);
      case None =>
        RebuildSame(st.blocks, params, st.page);
        FindsFirstFit(st.blocks, params, st.page);
    }
  }

  // ---- The new table of `expand` ----

  /** `size` bytes from `a` on would fit into the free record `b`, clear of the request `p`. */
  predicate SpotIn(b: RAMBlock, align: nat, size: nat, p: OwnedPtr, a: nat) {
    FitsIn(b, Conv, align, size, a) && OwnedPtr(a, size).Clear(p)
  }

  /** `a` is the least such address in the first record of the table that has any. */
  ghost predicate FirstSpot(t: Table, align: nat, size: nat, p: OwnedPtr, i: nat, a: nat) {
    && i < |t| && SpotIn(t[i], align, size, p, a)
    && (forall a': nat :: SpotIn(t[i], align, size, p, a') ==> a <= a')
    && (forall k: nat, a': nat :: k < i ==> !SpotIn(t[k], align, size, p, a'))
  }

  /** Where a record has a spot: at its start if that is clear of the request, and otherwise
      behind the request. */
  lemma SpotPlaces(b: RAMBlock, align: nat, size: nat, p: OwnedPtr, a: nat)
    requires size > 0 && SpotIn(b, align, size, p, a)
    ensures PlaceFilter(size, align, p)(b)
    ensures (if StartClear(b, size, align, p) then AlignUp(b.addr, align) else AlignUp(p.End(), align)) <= a
  {
    AlignUpLeast(b.addr, align);
    AlignUpLeast(p.End(), align);
    hide AlignUp;
  }

  /** A record that passes the filter has a spot where the new table is put. */
  lemma PlaceIsSpot(b: RAMBlock, align: nat, size: nat, p: OwnedPtr)
    requires size > 0 && b.Valid() && PlaceFilter(size, align, p)(b)
    ensures SpotIn(b, align, size, p,
                   if StartClear(b, size, align, p) then AlignUp(b.addr, align) else AlignUp(p.End(), align))
  {
    AlignUpLeast(b.addr, align);
    AlignUpLeast(p.End(), align);
    hide AlignUp;
  }

  /** `expand` puts the new table at the least clear address of the first free record that
      has one, and fails exactly when no record has. */
  lemma PlacementFirst(t: Table, size: nat, align: nat, p: OwnedPtr)
    requires size > 0
    ensures match Placement(t, size, align, p)
            case Some(r) => r.size == size && exists i: nat :: FirstSpot(t, align, size, p, i, r.addr)
            case None => forall k: nat, a: nat :: k < |t| ==> !SpotIn(t[k], align, size, p, a)
  {
    hide AlignUp, Aligned, PlaceFilter, SpotIn, StartClear;
    var i := First(t, PlaceFilter(size, align, p));
    forall k: nat, a: nat | k < |t| && SpotIn(t[k], align, size, p, a) ensures k >= i {
      SpotPlaces(t[k], align, size, p, a);
      SpotValid(t[k], align, size, p, a);
    }
    if i < |t| {
      PlaceIsSpot(t[i], align, size, p);
      var a := if StartClear(t[i], size, align, p) then AlignUp(t[i].addr, align) else AlignUp(p.End(), align);
      forall a': nat | SpotIn(t[i], align, size, p, a') ensures a <= a' { SpotPlaces(t[i], align, size, p, a'); }
      assert FirstSpot(t, align, size, p, i, a);
    }
  }

  lemma SpotValid(b: RAMBlock, align: nat, size: nat, p: OwnedPtr, a: nat)
    requires SpotIn(b, align, size, p, a)
    ensures b.Valid()
  {}

  // ---- The size of the table ----

  lemma HereLength(t: Table, lo: nat, hi: nat, ty: RAMType, used: bool)
    requires lo <= hi
    ensures |Repaint(t, lo, hi, ty, used)| == |t|
  {}

  /** `shrink` to fewer records than the table has, but enough for those in use, cuts the
      table down exactly when that saves storage. */
  lemma ShrinkLength(st: AllocState, n: nat)
    requires Disjoint(st.blocks) && 4 <= n < |st.blocks| && Count(st.blocks) <= n
    ensures |ShrinkF(st, n).blocks| == if TableBytes(n, st.page) < st.ptr.size then n else |st.blocks|
  {
    hide Disjoint, Count, Compact, TableBytes, Repaint, AlignUp;
    CompactKeeps(st.blocks, n, |st.blocks|, 0);
    var t, freed := Compact(st.blocks, n, |st.blocks|, 0).0, ShrinkFreed(st.ptr, n, st.page);
    HereLength(t[..n], freed.addr, freed.End(), Conv, false);
  }

  /** How many records the table has after `add`: twice as many if it was full and the new
      record needs a slot of its own; half as many, but no fewer than 128, if closing a gap
      leaves at most a quarter in use and the smaller table takes less storage; otherwise
      as many as before. */
  lemma AddLength(st: AllocState, b: RAMBlock)
    requires Layout(st) && Disjoint(st.blocks) && Fresh(st.blocks, b) && AddF(st, b).Some?
    requires Grows(st.blocks, b) ==> Growable(st, Range(b))
    ensures var n, half := |st.blocks|, if |st.blocks| / 2 > 128 then |st.blocks| / 2 else 128;
            |AddF(st, b).value.blocks| ==
              if Isolated(st.blocks, b) && Count(st.blocks) == n then 2 * n
              else if Bridges(st.blocks, b) && Count(st.blocks) - 1 <= n / 4 && half < n
                      && TableBytes(half, st.page) < st.ptr.size then half
              else n
  {
    hide Disjoint, Count, Insert, Isolated, Bridges, ExpandF, ShrinkF, Fresh, TableBytes, WholePages;
    if Grows(st.blocks, b) {
      NeverBoth(st.blocks, b);
      ExpandMoves(st, Range(b));
    } else {
      InsertCount(st.blocks, b);
      if Sparse(st.blocks, b) {
        NeverBoth(st.blocks, b);
        InsertPaints(st.blocks, b);
        var st1, half := st.(blocks := Insert(st.blocks, b)), Halved(|st.blocks|);
        if half < |st.blocks| { ShrinkLength(st1, half); } else { ShrinkNothing(st1, half); }
      }
    }
  }

  lemma NeverBoth(t: Table, b: RAMBlock)
    ensures !(Isolated(t, b) && Bridges(t, b))
  {}

  lemma ShrinkNothing(st: AllocState, n: nat)
    requires n >= |st.blocks|
    ensures ShrinkF(st, n) == st
  {}

  lemma ShrinkAtMost(st: AllocState, n: nat)
    ensures |ShrinkF(st, n).blocks| <= |st.blocks|
  {
    hide Count, TableBytes, Repaint, AlignUp;
    if n < |st.blocks| {
      var t, freed := Compact(st.blocks, n, |st.blocks|, 0).0, ShrinkFreed(st.ptr, n, st.page);
      HereLength(t[..n], freed.addr, freed.End(), Conv, false);
    }
  }

  lemma InsertKeeps(t: Table, b: RAMBlock)
    ensures Count(Insert(t, b)) >= Count(t) - 1
  {
    if Room(t, b) { InsertCount(t, b); } else { CountFull(t); }
  }

  /** Splitting a record and adding the request leaves all but a few records. */
  lemma SplitKeeps(t: Table, args: AllocParams, p: OwnedPtr, b: RAMBlock)
    requires Split(t, args, p).Some?
    ensures |Split(t, args, p).value| == |t| && Count(Insert(Split(t, args, p).value, b)) >= Count(t) - 4
  {
    hide Count, Insert;
    var i := First(t, HostFilter(args.fromType, p));
    var t1 := t[i := t[i].Invalidate()];
    var t2 := Insert(t1, Before(t[i], p));
    CountUpdate(t, i, t[i].Invalidate());
    InsertKeeps(t1, Before(t[i], p));
    InsertKeeps(t2, After(t[i], p));
    InsertKeeps(Insert(t2, After(t[i], p)), b);
  }

  /** A successful `alloc` doubles the table exactly when fewer than four records are spare,
      and otherwise never enlarges it. */
  lemma AllocLength(st: AllocState, params: AllocParams)
    requires Sound(st) && AllocF(st, params).1.Some?
    ensures Count(st.blocks) + 4 > |st.blocks| ==> |AllocF(st, params).0.blocks| == 2 * |st.blocks|
    ensures Count(st.blocks) + 4 <= |st.blocks| ==> |AllocF(st, params).0.blocks| <= |st.blocks|
  {
    hide Count, Disjoint, Target, Split, ExpandF, AddQuiet, Hosted, Insert;
    var args := params.Build(st.page);
    var p := Target(st.blocks, args, st.page).value;
    var m := MakeRoom(st, p).value;
    var b := RAMBlock(p.addr, p.size, args.asType, args.used);
    SplitKeeps(m.blocks, args, p, b);
    var m1 := m.(blocks := Split(m.blocks, args, p).value);
    QuietLength(m1, b);
    if Crowded(st.blocks) { ExpandMoves(st, p); }
  }

  /** Without growth, `add` at most cuts the table down, and only if it is sparse. */
  lemma QuietLength(st: AllocState, b: RAMBlock)
    ensures |AddQuiet(st, b).blocks| <= |st.blocks|
    ensures Count(Insert(st.blocks, b)) > |st.blocks| / 4 ==> |AddQuiet(st, b).blocks| == |st.blocks|
  {
    hide Count, Insert, ShrinkF;
    ShrinkAtMost(st.(blocks := Insert(st.blocks, b)), Halved(|st.blocks|));
  }
}
