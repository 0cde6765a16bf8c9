/** Consequences of full coalescing: the first-fit search is complete for the byte map,
    the byte map determines the records, and sizes of records count bytes. */
module PhysCanon {
  import opened Align
  import opened RamTable
  import opened Repainting
  import opened PhysSpec
  import opened PhysResize
  import opened PhysAllocate
  import opened Wrappers

  /** In a coalesced table a run of bytes of one kind lies inside a single record. */
  lemma {:induction false} RunInOneRecord(t: Table, lo: nat, hi: nat, ty: RAMType, used: bool)
    requires Disjoint(t) && Coalesced(t) && lo < hi
    requires forall a: nat :: lo <= a < hi ==> At(t, a) == Ram(ty, used)
    ensures Holds(t, lo, hi, ty, used)
    decreases hi
  {
    var j := AtWitness(t, hi - 1);
    if lo == hi - 1 {
      assert Houses(t[j], lo, hi, ty, used);
    } else {
      RunInOneRecord(t, lo, hi - 1, ty, used);
      var i :| 0 <= i < |t| && Houses(t[i], lo, hi - 1, ty, used);
      assert i == j || Apart(t[i], t[j]);
      assert t[i].IsMergable(t[j]) != -1;
      assert Houses(t[i], lo, hi, ty, used);
    }
  }

  // ---- Completeness of the first-fit search ----

  /** An aligned run of free bytes that would serve the request. */
  ghost predicate FreeRun(t: Table, params: AllocParams, page: nat, a: nat) {
    && Aligned(a, params.align)
    && forall x: nat :: a <= x < a + SizeAlign(params.size, page) ==> At(t, x) == Ram(params.fromType, false)
  }

  /** The search fails exactly when no such run exists anywhere in memory. */
  lemma FirstFitComplete(t: Table, params: AllocParams, page: nat)
    requires BasePage(page) && Disjoint(t) && Coalesced(t)
    ensures FindFreeRam(t, params, page).Some? <==> exists a: nat :: FreeRun(t, params, page, a)
    ensures FindFreeRam(t, params, page).Some? ==> FreeRun(t, params, page, FindFreeRam(t, params, page).value.addr)
  {
    hide Disjoint, Coalesced, At, SizeAlign, AlignUp;
    SizeAlignProps(params.size, page);
    var args := params.Build(page);
    var i := First(t, FreeFilter(args));
    if i < |t| {
      var p := FindFreeRam(t, params, page).value;
      AlignUpLeast(t[i].addr, args.align);
      forall x: nat | p.addr <= x < p.addr + args.size ensures At(t, x) == Ram(params.fromType, false) {
        AtIn(t, i, x);
      }
      assert FreeRun(t, params, page, p.addr);
    } else {
      forall a: nat ensures !FreeRun(t, params, page, a) {
        if FreeRun(t, params, page, a) {
          RunInOneRecord(t, a, a + args.size, params.fromType, false);
          var k :| 0 <= k < |t| && Houses(t[k], a, a + args.size, params.fromType, false);
          AlignUpLeast(t[k].addr, args.align);
        }
      }
    }
  }

  /** Growing the table leaves a pending request inside one free record. */
  lemma ExpandKeepsRequest(st: AllocState, p: OwnedPtr, ty: RAMType)
    requires Sound(st) && p.size > 0 && Holds(st.blocks, p.addr, p.End(), ty, false)
    requires ExpandF(st, Grown(|st.blocks|), p).Some?
    ensures Holds(ExpandF(st, Grown(|st.blocks|), p).value.blocks, p.addr, p.End(), ty, false)
  {
    hide Insert, Carve, LeftPart, RightPart, Disjoint, Coalesced, Count, At, SizeAlign, Placement, Aligned, Repaint,
         CutOut;
    ExpandMoves(st, p);
    var r := NewStorage(st, p).value;
    ClaimRoom(st, p);
    ClaimKeepsRequest(st, p, r, ty);
    hide Holds, Claimed, Padded, Sound;
    ReleaseKeepsRequest(st, p, r, ty);
  }

  /** Claiming the new storage leaves the pending request inside one record, ... */
  lemma ClaimKeepsRequest(st: AllocState, p: OwnedPtr, r: OwnedPtr, ty: RAMType)
    requires Sound(st) && p.size > 0 && Holds(st.blocks, p.addr, p.End(), ty, false)
    requires NewStorage(st, p) == Some(r)
    ensures Holds(Claimed(st, r), p.addr, p.End(), ty, false)
  {
    hide Insert, Carve, LeftPart, RightPart, Coalesced, Count, At, SizeAlign, Placement, Aligned, Repaint, CutOut,
         Holds;
    PaddedReady(st, p);
    ClaimRoom(st, p);
    SameRecordsHolds(st.blocks, Padded(st), p.addr, p.End(), ty, false);
    hide Disjoint;
    RepaintHolds(Padded(st), r.addr, r.End(), Conv, true, p.addr, p.End(), ty, false);
  }

  /** ... and so does releasing the old one. */
  lemma ReleaseKeepsRequest(st: AllocState, p: OwnedPtr, r: OwnedPtr, ty: RAMType)
    requires Sound(st) && p.size > 0 && Holds(st.blocks, p.addr, p.End(), ty, false)
    requires NewStorage(st, p) == Some(r) && Holds(Claimed(st, r), p.addr, p.End(), ty, false)
    ensures Holds(Repaint(Claimed(st, r), st.ptr.addr, st.ptr.End(), Conv, false), p.addr, p.End(), ty, false)
  {
    hide Insert, Carve, LeftPart, RightPart, Disjoint, Coalesced, Count, At, SizeAlign, Placement, Aligned, Repaint,
         CutOut, Holds;
    ClaimedBytes(st, p, r);
    ReleaseRoom(st, p, r);
    TableBytesPositive(|st.blocks|, st.page);
    RangesDisjoint(st.blocks, st.ptr.addr, st.ptr.End(), p.addr, p.End(), ty);
    RepaintHolds(Claimed(st, r), st.ptr.addr, st.ptr.End(), Conv, false, p.addr, p.End(), ty, false);
  }

  // ---- Completeness of the placement search of expand ----

  /** An aligned free place for `size` bytes that leaves the request `p` alone. */
  ghost predicate FreeSpot(t: Table, size: nat, align: nat, p: OwnedPtr, a: nat) {
    && Aligned(a, align) && OwnedPtr(a, size).Clear(p)
    && forall x: nat :: a <= x < a + size ==> At(t, x) == Ram(Conv, false)
  }

  /** The new table finds a place exactly when the byte map has one. */
  lemma PlacementComplete(t: Table, size: nat, align: nat, p: OwnedPtr)
    requires size > 0 && Disjoint(t) && Coalesced(t)
    ensures Placement(t, size, align, p).Some? <==> exists a: nat :: FreeSpot(t, size, align, p, a)
  {
    hide At, AlignUp, Aligned;
    if Placement(t, size, align, p).Some? {
      PlacementSafe(t, size, align, p);
      var r := Placement(t, size, align, p).value;
      forall x: nat | r.addr <= x < r.End() ensures At(t, x) == Ram(Conv, false) {
        HoldsAt(t, r.addr, r.End(), Conv, false, x);
      }
      assert FreeSpot(t, size, align, p, r.addr);
    }
    if a: nat :| FreeSpot(t, size, align, p, a) {
      RunInOneRecord(t, a, a + size, Conv, false);
      hide Disjoint, Coalesced;
      var k :| 0 <= k < |t| && Houses(t[k], a, a + size, Conv, false);
      SpotPasses(t[k], size, align, p, a);
    }
  }

  /** A record with such a place passes the filter of the search. */
  lemma SpotPasses(b: RAMBlock, size: nat, align: nat, p: OwnedPtr, a: nat)
    requires size > 0 && Houses(b, a, a + size, Conv, false) && Aligned(a, align) && OwnedPtr(a, size).Clear(p)
    ensures b.Valid() && PlaceFilter(size, align, p)(b)
  {
    AlignUpLeast(b.addr, align);
    AlignUpLeast(p.End(), align);
    hide AlignUp;
    assert AlignUp(b.addr, align) <= a;
    if p.End() <= a { assert AlignUp(p.End(), align) <= a; }
  }

  /** The table can move to a larger place while the request `p` is pending. */
  ghost predicate CanGrow(st: AllocState, p: OwnedPtr) {
    exists a: nat :: FreeSpot(st.blocks, TableBytes(Grown(|st.blocks|), st.page), st.page, p, a)
  }

  lemma NewStorageIff(st: AllocState, p: OwnedPtr)
    requires Layout(st) && Disjoint(st.blocks) && Coalesced(st.blocks)
    ensures NewStorage(st, p).Some? <==> CanGrow(st, p)
  {
    hide SizeAlign, Disjoint, Coalesced, Placement, Aligned;
    TableBytesPositive(Grown(|st.blocks|), st.page);
    PlacementComplete(st.blocks, TableBytes(Grown(|st.blocks|), st.page), st.page, p);
  }

  /** `expand` succeeds exactly when the byte map has room for the larger table. */
  lemma ExpandIff(st: AllocState, p: OwnedPtr)
    requires Growable(st, p) && Coalesced(st.blocks)
    ensures ExpandF(st, Grown(|st.blocks|), p).Some? <==> CanGrow(st, p)
  {
    hide ExpandF, Disjoint, Coalesced, CanGrow, NewStorage;
    ExpandMoves(st, p);
    NewStorageIff(st, p);
  }

  // ---- When alloc succeeds ----

  /** Neither type stands for reserved memory or device registers, and the request changes
      something. */
  ghost predicate Allowed(params: AllocParams) {
    && params.fromType !in {Reserved, MMIO, MMIOPortSpace} && params.asType !in {Reserved, MMIO, MMIOPortSpace}
    && (params.fromType != params.asType || params.used)
  }

  lemma AllowedMeans(params: AllocParams)
    ensures Allowed(params) <==>
              && !NonRam(params.fromType) && !NonRam(params.asType)
              && (params.fromType != params.asType || params.used)
  {}

  /** Every byte of the range is free memory of the requested type, or storage that the
      crowded table is about to leave. */
  ghost predicate Servable(st: AllocState, ty: RAMType, p: OwnedPtr) {
    forall x: nat {:trigger At(st.blocks, x)} :: p.Covers(x) ==>
      At(st.blocks, x) == Ram(ty, false) || (Crowded(st.blocks) && ty == Conv && st.ptr.Covers(x))
  }

  ghost predicate Obtainable(st: AllocState, params: AllocParams) {
    if params.addr.Some? then
      var p := OwnedPtr(AlignUp(params.addr.value, params.align), SizeAlign(params.size, st.page));
      Servable(st, params.fromType, p) && (Crowded(st.blocks) ==> CanGrow(st, p))
    else
      && (exists a: nat :: FreeRun(st.blocks, params, st.page, a))
      && (Crowded(st.blocks) ==>
            && FindFreeRam(st.blocks, params, st.page).Some?
            && CanGrow(st, FindFreeRam(st.blocks, params, st.page).value))
  }

  /** A request succeeds exactly when its types are allocatable, it changes something, the
      bytes it names, or for any address some fitting run, are free, and a crowded table
      has room to grow. */
  lemma AllocSucceeds(st: AllocState, params: AllocParams)
    requires Inv(st)
    ensures AllocF(st, params).1.Some? <==> Allowed(params) && Obtainable(st, params)
  {
    if params.addr.Some? {
      AllocAtSucceeds(st, params);
    } else {
      AllocAnywhere(st, params);
      var found := FindFreeRam(st.blocks, params, st.page);
      hide AllocF, Disjoint, Coalesced, FindFreeRam, FreeRun, NewStorage, CanGrow, Allowed;
      if found.Some? { NewStorageIff(st, found.value); }
    }
  }

  lemma AllocAtSucceeds(st: AllocState, params: AllocParams)
    requires Inv(st) && params.addr.Some?
    ensures AllocF(st, params).1.Some? <==> Allowed(params) && Obtainable(st, params)
  {
    hide Count, Disjoint, Coalesced, At, SizeAlign, Layout, Hosted, NewStorage, MakeRoom, AddQuiet, Split, Changed,
         CanGrow, Servable, Crowded, AlignUp, Allowed, NonRam;
    AllowedMeans(params);
    assert BasePage(st.page) by { LayoutPage(st); }
    var args := params.Build(st.page);
    var p := OwnedPtr(args.addr.value, args.size);
    TargetShape(st.blocks, params, st.page);
    MakeRoomMoves(st, p);
    NewStorageIff(st, p);
    var m := MakeRoom(st, p);
    if m.Some? {
      ServableHosted(st, m.value, params.fromType, p);
      if Holds(m.value.blocks, p.addr, p.End(), params.fromType, false) && Allowed(params) {
        AllocHereRepaints(m.value.blocks, args, p);
      }
      if Split(m.value.blocks, args, p).Some? { SplitHost(m.value.blocks, args, p); }
    } else {
      NoRoom(st, p);
    }
  }

  lemma NoRoom(st: AllocState, p: OwnedPtr)
    requires MakeRoom(st, p).None?
    ensures Crowded(st.blocks)
  {
    hide ExpandF, Count;
  }

  /** With room in the table, a servable range is one that a single record holds. */
  lemma ServableHosted(st: AllocState, m: AllocState, ty: RAMType, p: OwnedPtr)
    requires Inv(st) && MakeRoom(st, p) == Some(m) && p.size > 0
    ensures Servable(st, ty, p) <==> Holds(m.blocks, p.addr, p.End(), ty, false)
  {
    hide Count, Disjoint, Coalesced, At, SizeAlign, Layout, Holds, MakeRoom, Changed, NewStorage, Crowded;
    MakeRoomMoves(st, p);
    forall x: nat | p.Covers(x)
      ensures At(m.blocks, x) == Ram(ty, false) <==>
                At(st.blocks, x) == Ram(ty, false) || (Crowded(st.blocks) && ty == Conv && st.ptr.Covers(x))
    {
      ServableAt(st, m, ty, p, x);
    }
    if Servable(st, ty, p) {
      RunInOneRecord(m.blocks, p.addr, p.End(), ty, false);
    }
    if Holds(m.blocks, p.addr, p.End(), ty, false) {
      forall x: nat | p.Covers(x) ensures At(m.blocks, x) == Ram(ty, false) {
        HoldsAt(m.blocks, p.addr, p.End(), ty, false, x);
      }
    }
  }

  lemma ServableAt(st: AllocState, m: AllocState, ty: RAMType, p: OwnedPtr, x: nat)
    requires Sound(st) && MakeRoom(st, p) == Some(m) && p.size > 0 && p.Covers(x)
    ensures At(m.blocks, x) == Ram(ty, false) <==>
              At(st.blocks, x) == Ram(ty, false) || (Crowded(st.blocks) && ty == Conv && st.ptr.Covers(x))
  {
    hide Count, Disjoint, At, SizeAlign, Layout, Holds, Changed, NewStorage, ExpandF;
    MakeRoomMoves(st, p);
    if Crowded(st.blocks) {
      MovedAt(st, m, x);
      if st.ptr.Covers(x) { HoldsAt(st.blocks, st.ptr.addr, st.ptr.End(), Conv, true, x); }
      ExpandMoves(st, p);
    }
  }

  lemma AllocAnywhere(st: AllocState, params: AllocParams)
    requires Inv(st) && params.addr.None?
    ensures AllocF(st, params).1.Some? <==>
              && Allowed(params)
              && (exists a: nat :: FreeRun(st.blocks, params, st.page, a))
              && (Crowded(st.blocks) ==>
                    && FindFreeRam(st.blocks, params, st.page).Some?
                    && NewStorage(st, FindFreeRam(st.blocks, params, st.page).value).Some?)
  {
    var found := FindFreeRam(st.blocks, params, st.page);
    assert found.Some? <==> exists a: nat :: FreeRun(st.blocks, params, st.page, a) by {
      FirstFitComplete(st.blocks, params, st.page);
    }
    hide AllocF, Disjoint, Coalesced, FindFreeRam, FreeRun, NewStorage, Layout, Hosted, Crowded, Allowed, NonRam;
    AllowedMeans(params);
    AllocSearched(st, params);
    if found.Some? {
      AllocFound(st, params, found.value);
    }
  }

  lemma AllocSearched(st: AllocState, params: AllocParams)
    requires Inv(st) && params.addr.None?
    ensures AllocF(st, params).1.Some? ==>
              && !NonRam(params.fromType) && !NonRam(params.asType)
              && FindFreeRam(st.blocks, params, st.page).Some?
  {
    hide AddQuiet, FindFreeRam, Split, MakeRoom, SizeAlign, Disjoint, Coalesced;
    RebuildSame(st.blocks, params, st.page);
  }

  lemma AllocFound(st: AllocState, params: AllocParams, p: OwnedPtr)
    requires Inv(st) && params.addr.None? && FindFreeRam(st.blocks, params, st.page) == Some(p)
    ensures AllocF(st, params).1.Some? <==>
              && !NonRam(params.fromType) && !NonRam(params.asType)
              && (params.fromType != params.asType || params.used)
              && (Crowded(st.blocks) ==> NewStorage(st, p).Some?)
  {
    hide Count, Disjoint, Coalesced, At, SizeAlign, Layout, Hosted, Crowded, NewStorage, MakeRoom, AddQuiet,
         FindFreeRam, Split, AllocParams.Build, Changed;
    assert BasePage(st.page) by { LayoutPage(st); }
    RebuildSame(st.blocks, params, st.page);
    BuildKinds(params, st.page);
    var args := params.Build(st.page);
    TargetShape(st.blocks, params, st.page);
    MakeRoomMoves(st, p);
    var m := MakeRoom(st, p);
    if m.Some? {
      RequestHosted(st, params, p);
      if params.fromType != params.asType || params.used {
        AllocHereRepaints(m.value.blocks, args, p);
      } else {
        SplitPointless(m.value.blocks, args, p);
      }
    }
  }

  lemma BuildKinds(params: AllocParams, page: nat)
    ensures var args := params.Build(page);
            && args.fromType == params.fromType && args.asType == params.asType && args.used == params.used
            && (args.addr.None? <==> params.addr.None?)
  {}

  lemma RequestHosted(st: AllocState, params: AllocParams, p: OwnedPtr)
    requires Sound(st) && FindFreeRam(st.blocks, params, st.page) == Some(p) && p.size > 0
    requires MakeRoom(st, p).Some?
    ensures Holds(MakeRoom(st, p).value.blocks, p.addr, p.End(), params.fromType, false)
  {
    hide Count, Disjoint, At, SizeAlign, Layout, Hosted, FindFreeRam, ExpandF;
    SearchHost(st.blocks, params, st.page);
    if Crowded(st.blocks) { ExpandKeepsRequest(st, p, params.fromType); }
  }

  lemma SplitPointless(t: Table, args: AllocParams, p: OwnedPtr)
    requires args.fromType == args.asType && !args.used
    ensures Split(t, args, p).None?
  {}

  /** Building the parameters twice, as `alloc` does, searches for the same range. */
  lemma RebuildSame(t: Table, params: AllocParams, page: nat)
    requires BasePage(page) && params.addr.None?
    ensures FindFreeRam(t, params.Build(page), page) == FindFreeRam(t, params, page)
  {
    SizeAlignProps(params.size, page);
    assert params.Build(page).Build(page) == params.Build(page);
  }

  lemma SearchHost(t: Table, params: AllocParams, page: nat)
    requires FindFreeRam(t, params, page).Some?
    ensures var p := FindFreeRam(t, params, page).value;
            Holds(t, p.addr, p.End(), params.fromType, false)
  {
    var args := params.Build(page);
    var i := First(t, FreeFilter(args));
    AlignUpLeast(t[i].addr, args.align);
    var addr := AlignUp(t[i].addr, args.align);
    assert Houses(t[i], addr, addr + args.size, params.fromType, false);
  }

  // ---- The byte map determines the records ----

  ghost function Records(t: Table): set<RAMBlock> {
    set b | b in t && b.Valid()
  }

  ghost predicate SameBytes(t: Table, u: Table) {
    forall a: nat :: At(t, a) == At(u, a)
  }

  lemma RecordIn(t: Table, u: Table, i: nat)
    requires Disjoint(t) && Coalesced(t) && Disjoint(u) && Coalesced(u) && SameBytes(t, u)
    requires i < |t| && t[i].Valid()
    ensures t[i] in Records(u)
  {
    var b := t[i];
    forall a: nat | b.addr <= a < b.End() ensures At(u, a) == Ram(b.ty, b.used) {
      AtIn(t, i, a);
    }
    RunInOneRecord(u, b.addr, b.End(), b.ty, b.used);
    var j :| 0 <= j < |u| && Houses(u[j], b.addr, b.End(), b.ty, b.used);
    forall a: nat | u[j].addr <= a < u[j].End() ensures At(t, a) == Ram(b.ty, b.used) {
      AtIn(u, j, a);
    }
    RunInOneRecord(t, u[j].addr, u[j].End(), b.ty, b.used);
    var k :| 0 <= k < |t| && Houses(t[k], u[j].addr, u[j].End(), b.ty, b.used);
    assert k == i || Apart(t[k], t[i]);
    assert u[j] == b;
  }

  /** Two coalesced tables with the same byte map hold the same valid records. */
  lemma Canonical(t: Table, u: Table)
    requires Disjoint(t) && Coalesced(t) && Disjoint(u) && Coalesced(u) && SameBytes(t, u)
    ensures Records(t) == Records(u)
  {
    hide Disjoint, Coalesced, At;
    forall b | b in Records(t) ensures b in Records(u) {
      var i :| 0 <= i < |t| && t[i] == b;
      RecordIn(t, u, i);
    }
    assert SameBytes(u, t);
    forall b | b in Records(u) ensures b in Records(t) {
      var i :| 0 <= i < |u| && u[i] == b;
      RecordIn(u, t, i);
    }
  }

  // ---- Sizes count bytes ----

  /** `filtsize_raw`: the summed sizes of the valid records that pass the filter. */
  function FiltSize(t: Table, f: RAMBlock -> bool): nat {
    if t == [] then 0
    else
      var b := t[|t| - 1];
      FiltSize(t[..|t| - 1], f) + if b.Valid() && f(b) then b.size else 0
  }

  predicate InSpan(a: nat, lo: nat, n: nat) { lo <= a < lo + n }

  ghost function Span(lo: nat, n: nat): set<nat> {
    set a: nat | a < lo + n && InSpan(a, lo, n)
  }

  lemma {:induction false} SpanSize(lo: nat, n: nat)
    ensures |Span(lo, n)| == n
  {
    if n > 0 {
      SpanSize(lo, n - 1);
      assert Span(lo, n) == Span(lo, n - 1) + {lo + n - 1};
    }
  }

  /** The bytes covered by the valid records that pass the filter. */
  ghost function FiltBytes(t: Table, f: RAMBlock -> bool): set<nat> {
    if t == [] then {}
    else
      var b := t[|t| - 1];
      FiltBytes(t[..|t| - 1], f) + if f(b) then Span(b.addr, b.size) else {}
  }

  lemma {:induction false} FiltBytesIn(t: Table, f: RAMBlock -> bool, a: nat)
    ensures a in FiltBytes(t, f) <==> exists i :: In(t, i, a) && f(t[i])
  {
    if t != [] {
      var n := |t| - 1;
      FiltBytesIn(t[..n], f, a);
      if i :| In(t[..n], i, a) && f(t[..n][i]) {
        assert In(t, i, a) && f(t[i]);
      }
      if i :| In(t, i, a) && f(t[i]) {
        assert i < n ==> In(t[..n], i, a) && f(t[..n][i]);
      }
      assert t[n].Covers(a) ==> In(t, n, a);
    }
  }

  /** The size sum of disjoint records is the number of bytes they cover. */
  lemma {:induction false} FiltSizeCountsBytes(t: Table, f: RAMBlock -> bool)
    requires Disjoint(t)
    ensures FiltSize(t, f) == |FiltBytes(t, f)|
  {
    if t != [] {
      var n := |t| - 1;
      var b := t[n];
      assert Disjoint(t[..n]) by {
        forall i, j | 0 <= i < n && 0 <= j < n && i != j ensures Apart(t[..n][i], t[..n][j]) {
          assert Apart(t[i], t[j]);
        }
      }
      FiltSizeCountsBytes(t[..n], f);
      SpanSize(b.addr, b.size);
      forall a: nat | a in Span(b.addr, b.size) ensures a !in FiltBytes(t[..n], f) {
        FiltBytesIn(t[..n], f, a);
        forall i | 0 <= i < n ensures !In(t[..n], i, a) {
          assert Apart(t[i], t[n]);
        }
      }
      if f(b) {
        assert FiltBytes(t[..n], f) !! Span(b.addr, b.size);
      }
    }
  }

  function All(b: RAMBlock): bool { true }
  function Available(b: RAMBlock): bool { !NonRam(b.ty) && !b.used && b.ty == Conv }

  /** Bytes known to the table, and free conventional bytes. */
  function Total(t: Table): nat { FiltSize(t, All) }
  function Free(t: Table): nat { FiltSize(t, Available) }

  /** The totals depend on the byte map only. */
  lemma TotalsFollowBytes(t: Table, u: Table)
    requires Disjoint(t) && Disjoint(u)
    ensures (forall a: nat :: At(t, a).Hole? <==> At(u, a).Hole?) ==> Total(t) == Total(u)
    ensures (forall a: nat :: At(t, a) == Ram(Conv, false) <==> At(u, a) == Ram(Conv, false)) ==> Free(t) == Free(u)
  {
    FiltSizeCountsBytes(t, All);
    FiltSizeCountsBytes(u, All);
    FiltSizeCountsBytes(t, Available);
    FiltSizeCountsBytes(u, Available);
    forall a: nat
      ensures a in FiltBytes(t, All) <==> !At(t, a).Hole?
      ensures a in FiltBytes(u, All) <==> !At(u, a).Hole?
      ensures a in FiltBytes(t, Available) <==> At(t, a) == Ram(Conv, false)
      ensures a in FiltBytes(u, Available) <==> At(u, a) == Ram(Conv, false)
    {
      FiltBytesAt(t, a);
      FiltBytesAt(u, a);
    }
    if forall a: nat :: At(t, a).Hole? <==> At(u, a).Hole? {
      assert FiltBytes(t, All) == FiltBytes(u, All);
    }
    if forall a: nat :: At(t, a) == Ram(Conv, false) <==> At(u, a) == Ram(Conv, false) {
      assert FiltBytes(t, Available) == FiltBytes(u, Available);
    }
  }

  lemma FiltBytesAt(t: Table, a: nat)
    requires Disjoint(t)
    ensures a in FiltBytes(t, All) <==> !At(t, a).Hole?
    ensures a in FiltBytes(t, Available) <==> At(t, a) == Ram(Conv, false)
  {
    FiltBytesIn(t, All, a);
    FiltBytesIn(t, Available, a);
    if i :| In(t, i, a) {
      AtIn(t, i, a);
      assert All(t[i]);
      forall j | In(t, j, a) ensures Available(t[j]) <==> Available(t[i]) {
        AtIn(t, j, a);
      }
    }
  }
}
