/** When `free` has to grow the table, when that fails, and when it leaves records
    unmerged, in terms of the table and the bytes before the call. */
module PhysStale {
  import opened Align
  import opened RamTable
  import opened Repainting
  import opened PhysSpec
  import opened PhysResize
  import opened PhysAllocate
  import opened PhysCanon
  import opened PhysFree
  import opened PhysDamage
  import opened Wrappers

  // ---- When free grows the table ----

  /** The bytes next to the range are not free conventional memory. */
  ghost predicate Lonely(t: Table, p: OwnedPtr) {
    (p.addr == 0 || At(t, p.addr - 1) != Ram(Conv, false)) && At(t, p.End()) != Ram(Conv, false)
  }

  /** After cutting the range out, no slot is left for it, and it is not empty and merges
      with nothing. */
  ghost predicate NeedsSlot(t: Table, p: OwnedPtr) {
    p.size > 0 && !Roomy(t, p.addr, p.End()) && Lonely(t, p)
  }

  lemma SplitIff(t: Table, p: OwnedPtr)
    requires Disjoint(t) && Coalesced(t) && p.size > 0
    ensures Grows(AfterLeft(t, p), RightPart(t, p.addr, p.End())) <==> SplitsFull(t, p)
  {
    hide Disjoint, Coalesced, Grows, AfterLeft, SplitsFull;
    if SplitsFull(t, p) { SplitsGrows(t, p); }
    if Grows(AfterLeft(t, p), RightPart(t, p.addr, p.End())) { GrowsSplits(t, p); }
  }

  function Cut(st: AllocState, p: OwnedPtr): AllocState {
    st.(blocks := CutOut(st.blocks, p.addr, p.End()))
  }

  /** The table with the range cut out, when putting the parts back did not grow it. */
  lemma CutBytes(st: AllocState, p: OwnedPtr)
    requires Inv(st) && p.Clear(st.ptr) && p.size > 0 && !SplitsFull(st.blocks, p)
    ensures AddF(LeftBack(st, p), Right(st, p)) == Some(Cut(st, p))
    ensures Inv(Cut(st, p)) && Fresh(Cut(st, p).blocks, Middle(p))
    ensures forall a: nat {:trigger At(Cut(st, p).blocks, a)} ::
              At(Cut(st, p).blocks, a) == if p.Covers(a) then Hole else At(st.blocks, a)
    ensures Count(Cut(st, p).blocks) == Count(Carve(st.blocks, p.addr, p.End()))
              + One(LeftPart(st.blocks, p.addr, p.End())) + One(RightPart(st.blocks, p.addr, p.End()))
  {
    hide Disjoint, Coalesced, Grows, AfterLeft, SplitsFull, Count, At, CutOut, LeftPart, RightPart, Carve, AddF,
         Layout, Conflict;
    SplitIff(st.blocks, p);
    NoConflict(st, p);
    RightQuiet(st, p);
    RightSound(st, p, Cut(st, p));
    MiddleFresh(st, p, Cut(st, p));
    forall a: nat ensures At(Cut(st, p).blocks, a) == if p.Covers(a) then Hole else At(st.blocks, a) {
      CutByte(st, p, a);
    }
    CutCount(st, p);
  }

  lemma NoConflict(st: AllocState, p: OwnedPtr)
    requires !Grows(AfterLeft(st.blocks, p), Right(st, p))
    ensures !Conflict(st, p)
  {}

  lemma CutByte(st: AllocState, p: OwnedPtr, a: nat)
    requires Sound(st) && p.Clear(st.ptr) && Changed(LeftBack(st, p), Right(st, p), Cut(st, p))
    ensures At(Cut(st, p).blocks, a) == if p.Covers(a) then Hole else At(st.blocks, a)
  {
    hide Disjoint, AfterLeft, At, CutOut, RightPart, Layout;
    LeftBytes(st.blocks, p, a);
    RightStart(st.blocks, p, a);
    if st.ptr.Covers(a) { HoldsAt(st.blocks, st.ptr.addr, st.ptr.End(), Conv, true, a); }
    assert At(Cut(st, p).blocks, a) ==
           if st.ptr.Covers(a) then Ram(Conv, true)
           else if Right(st, p).Covers(a) then Ram(Right(st, p).ty, Right(st, p).used)
           else At(LeftBack(st, p).blocks, a);
  }

  lemma CutCount(st: AllocState, p: OwnedPtr)
    requires Inv(st) && p.size > 0 && !Grows(AfterLeft(st.blocks, p), Right(st, p))
    ensures Count(Cut(st, p).blocks) == Count(Carve(st.blocks, p.addr, p.End()))
              + One(LeftPart(st.blocks, p.addr, p.End())) + One(RightPart(st.blocks, p.addr, p.End()))
  {
    hide Disjoint, Coalesced, Count, At, LeftPart, RightPart, Carve, Layout, Insert, Isolated;
    var t := st.blocks;
    LeftCount(t, p);
    var r := Right(st, p);
    if r.Valid() {
      RightIsolated(t, p);
      InsertCount(AfterLeft(t, p), r);
    }
  }

  /** Once the parts are back, the range itself grows the table exactly when it needs a
      slot and there is none. */
  lemma MiddleIff(st: AllocState, p: OwnedPtr)
    requires Inv(st) && p.Clear(st.ptr) && p.size > 0 && !SplitsFull(st.blocks, p)
    ensures Grows(Cut(st, p).blocks, Middle(p)) <==> NeedsSlot(st.blocks, p)
  {
    hide Disjoint, Coalesced, AfterLeft, SplitsFull, Count, At, CutOut, LeftPart, RightPart, Carve, AddF, Layout,
         Isolated;
    CutBytes(st, p);
    IsolatedBytes(Cut(st, p).blocks, Middle(p));
    CutOutLength(st.blocks, p.addr, p.End());
  }

  // ---- When free fails ----

  /** Free conventional memory, outside the range and outside `rest`, for a grown table. */
  ghost predicate SpotOutside(st: AllocState, p: OwnedPtr, rest: OwnedPtr, a: nat) {
    && Aligned(a, st.page)
    && forall x: nat :: a <= x < a + TableBytes(Grown(|st.blocks|), st.page) ==>
         At(st.blocks, x) == Ram(Conv, false) && !p.Covers(x) && !rest.Covers(x)
  }

  ghost predicate PlaceOutside(st: AllocState, p: OwnedPtr, rest: OwnedPtr) {
    exists a: nat :: SpotOutside(st, p, rest, a)
  }

  /** `free` has to grow the table, and there is no place for it. What is behind the range
      in a split record is not available either, since it is still to be put back. */
  ghost predicate NoPlace(st: AllocState, p: OwnedPtr) {
    if SplitsFull(st.blocks, p) then !PlaceOutside(st, p, Range(Right(st, p)))
    else NeedsSlot(st.blocks, p) && !PlaceOutside(st, p, OwnedPtr(0, 0))
  }

  lemma PlaceIff(st: AllocState, s: AllocState, p: OwnedPtr, rest: OwnedPtr)
    requires Layout(s) && Disjoint(s.blocks) && Coalesced(s.blocks) && s.page == st.page && |s.blocks| == |st.blocks|
    requires p.size > 0 && (rest.size > 0 || rest == p)
    requires forall a: nat {:trigger At(s.blocks, a)} ::
               At(s.blocks, a) == if p.Covers(a) || rest.Covers(a) then Hole else At(st.blocks, a)
    ensures NewStorage(s, rest).Some? <==> PlaceOutside(st, p, rest)
  {
    hide Disjoint, Coalesced, At, SizeAlign, NewStorage, Aligned;
    NewStorageIff(s, rest);
    var size := TableBytes(Grown(|s.blocks|), s.page);
    TableBytesPositive(Grown(|s.blocks|), s.page);
    forall a: nat ensures FreeSpot(s.blocks, size, s.page, rest, a) <==> SpotOutside(st, p, rest, a) {
      SpotIff(st, s, p, rest, a);
    }
  }

  lemma SpotIff(st: AllocState, s: AllocState, p: OwnedPtr, rest: OwnedPtr, a: nat)
    requires BasePage(s.page) && s.page == st.page && |s.blocks| == |st.blocks| && rest.size > 0
    requires forall a: nat {:trigger At(s.blocks, a)} ::
               At(s.blocks, a) == if p.Covers(a) || rest.Covers(a) then Hole else At(st.blocks, a)
    ensures FreeSpot(s.blocks, TableBytes(Grown(|s.blocks|), s.page), s.page, rest, a) <==> SpotOutside(st, p, rest, a)
  {
    hide At, SizeAlign, Aligned;
    var size := TableBytes(Grown(|s.blocks|), s.page);
    TableBytesPositive(Grown(|s.blocks|), s.page);
    if SpotOutside(st, p, rest, a) {
      forall x: nat | a <= x < a + size ensures At(s.blocks, x) == Ram(Conv, false) {
        assert At(st.blocks, x) == Ram(Conv, false);
      }
      ClearByBytes(OwnedPtr(a, size), rest);
    }
    if FreeSpot(s.blocks, size, s.page, rest, a) {
      forall x: nat | a <= x < a + size
        ensures At(st.blocks, x) == Ram(Conv, false) && !p.Covers(x) && !rest.Covers(x)
      {
        assert At(s.blocks, x) == Ram(Conv, false);
      }
    }
  }

  /** Whether the split record's rest can be put back. */
  lemma SplitPlace(st: AllocState, p: OwnedPtr)
    requires Inv(st) && p.Clear(st.ptr) && p.size > 0 && SplitsFull(st.blocks, p)
    ensures NewStorage(LeftBack(st, p), Range(Right(st, p))).Some? <==> PlaceOutside(st, p, Range(Right(st, p)))
  {
    hide Disjoint, Coalesced, AfterLeft, SplitsFull, Count, At, LeftPart, RightPart, Carve, Grows, PlaceOutside,
         NewStorage;
    SplitIff(st.blocks, p);
    GrowsValid(AfterLeft(st.blocks, p), Right(st, p));
    CarveLength(st.blocks, p);
    LeftBackPending(st, p);
    CoalescedLeft(st, p);
    forall a: nat
      ensures At(LeftBack(st, p).blocks, a) ==
                if p.Covers(a) || Range(Right(st, p)).Covers(a) then Hole else At(st.blocks, a)
    {
      LeftBytes(st.blocks, p, a);
    }
    PlaceIff(st, LeftBack(st, p), p, Range(Right(st, p)));
  }

  /** Whether the range itself can be put back after the cut. */
  lemma MiddlePlace(st: AllocState, p: OwnedPtr)
    requires Inv(st) && p.Clear(st.ptr) && p.size > 0 && !SplitsFull(st.blocks, p)
    ensures NewStorage(Cut(st, p), p).Some? <==> PlaceOutside(st, p, OwnedPtr(0, 0))
  {
    hide Disjoint, Coalesced, AfterLeft, SplitsFull, Count, At, LeftPart, RightPart, Carve, AddF, CutOut, NewStorage,
         Fresh;
    CutBytes(st, p);
    CutOutLength(st.blocks, p.addr, p.End());
    PlaceIff(st, Cut(st, p), p, p);
    forall a: nat ensures SpotOutside(st, p, p, a) <==> SpotOutside(st, p, OwnedPtr(0, 0), a) {}
  }

  /** Freeing an empty range cannot fail and leaves all records as they were. */
  lemma FreeNothing(st: AllocState, p: OwnedPtr)
    requires Inv(st) && p.Clear(st.ptr) && p.size == 0
    ensures FreeF(st, p) == Some(Cut(st, p)) && Inv(Cut(st, p))
    ensures Records(Cut(st, p).blocks) == Records(st.blocks)
    ensures !Conflict(st, p) && !Stale(st, p)
  {
    hide Disjoint, Coalesced, AfterLeft, Count, At, LeftPart, RightPart, Carve, CutOut, FreeF, Layout, Grows, Isolated,
         NewStorage, StaleMerge;
    EmptyQuiet(st.blocks, p);
    RightQuiet(st, p);
    FreeSteps(st, p);
    AddInvalid(Cut(st, p), Middle(p));
    NoConflict(st, p);
    FreeBytes(st, p, Cut(st, p));
    NothingGrows(Cut(st, p).blocks, p);
    forall a: nat ensures At(Cut(st, p).blocks, a) == At(st.blocks, a) {
      if st.ptr.Covers(a) { HoldsAt(st.blocks, st.ptr.addr, st.ptr.End(), Conv, true, a); }
    }
    Canonical(Cut(st, p).blocks, st.blocks);
  }

  lemma NothingGrows(t: Table, p: OwnedPtr)
    requires p.size == 0
    ensures !Grows(t, Middle(p))
  {}

  /** `free` fails, which is a panic, exactly when it has to grow the table and no free
      conventional memory can hold the larger one. */
  lemma FreeFailsIff(st: AllocState, p: OwnedPtr)
    requires Inv(st) && p.Clear(st.ptr)
    ensures FreeF(st, p).None? <==> NoPlace(st, p)
  {
    hide Disjoint, Coalesced, AfterLeft, SplitsFull, Count, At, LeftPart, RightPart, Carve, CutOut, NewStorage, Fresh,
         FreeF, Layout, PlaceOutside, NeedsSlot, ExpandF, Isolated, Sparse;
    if p.size == 0 {
      FreeNothing(st, p);
      NothingNeeded(st.blocks, p);
      return;
    }
    FreeSteps(st, p);
    SplitIff(st.blocks, p);
    if SplitsFull(st.blocks, p) {
      SplitPlace(st, p);
      SplitGoesOn(st, p);
    } else {
      CutBytes(st, p);
      MiddleIff(st, p);
      MiddlePlace(st, p);
      ExpandMoves(Cut(st, p), p);
    }
  }

  lemma NothingNeeded(t: Table, p: OwnedPtr)
    requires p.size == 0
    ensures !SplitsFull(t, p) && !NeedsSlot(t, p)
  {}

  lemma SplitGoesOn(st: AllocState, p: OwnedPtr)
    requires Freeable(st, p) && Grows(AfterLeft(st.blocks, p), Right(st, p))
    ensures FreeF(st, p).Some? <==> NewStorage(LeftBack(st, p), Range(Right(st, p))).Some?
  {
    hide Disjoint, Coalesced, AfterLeft, Count, At, LeftPart, RightPart, Insert, NewStorage, Fresh, FreeF, Layout,
         ExpandF, Isolated, Sparse, Put;
    var s1, r := LeftBack(st, p), Right(st, p);
    FreeSteps(st, p);
    LeftBackPending(st, p);
    GrowsValid(s1.blocks, r);
    CarriedGrowable(s1, r);
    ExpandMoves(s1, Range(r));
    CarveLength(st.blocks, p);
    if NewStorage(s1, Range(r)).Some? { GrownThenMiddle(st, p); }
  }

  lemma GrownThenMiddle(st: AllocState, p: OwnedPtr)
    requires Freeable(st, p) && Grows(AfterLeft(st.blocks, p), Right(st, p))
    requires AddF(LeftBack(st, p), Right(st, p)).Some?
    ensures AddF(AddF(LeftBack(st, p), Right(st, p)).value, Middle(p)).Some?
  {
    hide Disjoint, Coalesced, AfterLeft, Count, At, LeftPart, RightPart, Insert, NewStorage, Fresh, Layout, ExpandF,
         Isolated, Sparse, Put;
    var s1, r := LeftBack(st, p), Right(st, p);
    LeftBackPending(st, p);
    GrowsValid(s1.blocks, r);
    CarveLength(st.blocks, p);
    LayoutRecords(st);
    if Carries(r, st.ptr) {
      AddGrowBroken(s1, r);
    } else {
      AddGrowSound(s1, r);
    }
    QuietAfterGrowth(AddF(s1, r).value, |st.blocks|, Middle(p));
  }

  // ---- When free leaves records unmerged ----

  function Rest(b: RAMBlock, p: OwnedPtr): OwnedPtr
    requires p.End() <= b.End()
  {
    OwnedPtr(p.End(), b.End() - p.End())
  }

  /** The rest of the split record `b` touches the table where it leaves or where it goes. */
  predicate SplitTouches(st: AllocState, b: RAMBlock, p: OwnedPtr)
    requires Splits(b, p)
  {
    && b.ty == Conv
    && if b.used then NewStorage(st, Rest(b, p)).Some? && NewStorage(st, Rest(b, p)).value.addr == b.End()
       else st.ptr.addr == b.End()
  }

  /** `free` grows the table while it still holds a record that touches it. */
  ghost predicate Touches(st: AllocState, p: OwnedPtr) {
    if SplitsFull(st.blocks, p)
    then exists i :: 0 <= i < |st.blocks| && Splits(st.blocks[i], p) && SplitTouches(st, st.blocks[i], p)
    else NeedsSlot(st.blocks, p) && Adjacent(Middle(p), st.ptr)
  }

  /** In a full table the left part goes into the slot of the split record. */
  lemma SplitSlot(t: Table, p: OwnedPtr, i: nat)
    requires Disjoint(t) && Coalesced(t) && p.size > 0 && Count(t) == |t| && i < |t| && Splits(t[i], p)
    ensures AfterLeft(t, p) == t[i := LeftPart(t, p.addr, p.End())]
    ensures LeftPart(t, p.addr, p.End()).used == t[i].used && LeftPart(t, p.addr, p.End()).Valid()
    ensures RightPart(t, p.addr, p.End()) == RAMBlock(p.End(), t[i].End() - p.End(), t[i].ty, t[i].used)
  {
    hide Disjoint, Coalesced, Count, At, LeftPart, RightPart, Carve, Isolated;
    CarveSingle(t, p.addr, p.End(), i);
    PartsSingle(t, p.addr, p.End(), i);
    LeftIsolated(t, p);
    var c, l := Carve(t, p.addr, p.End()), LeftPart(t, p.addr, p.End());
    CountFull(t);
    assert Insert(c, l) == Put(c, l) by { IsolatedPut(c, l); }
    OnlySlot(t, i);
  }

  lemma IsolatedPut(t: Table, b: RAMBlock)
    requires Isolated(t, b)
    ensures Insert(t, b) == Put(t, b)
  {}

  lemma OnlySlot(t: Table, i: nat)
    requires i < |t| && forall k :: 0 <= k < |t| ==> t[k].Valid()
    ensures FirstInvalid(t[i := t[i].Invalidate()], 0) == i
  {
    var c, k := t[i := t[i].Invalidate()], FirstInvalid(t[i := t[i].Invalidate()], 0);
    assert !c[i].Valid();
    assert k <= i;
  }

  /** Shortening a used record does not affect the search for a place. */
  lemma SameSearch(t: Table, i: nat, b: RAMBlock, size: nat, align: nat, p: OwnedPtr)
    requires i < |t| && t[i].used && b.used
    ensures Placement(t[i := b], size, align, p) == Placement(t, size, align, p)
  {
    var f := PlaceFilter(size, align, p);
    var u := t[i := b];
    var m, n := First(t, f), First(u, f);
    if m < |t| { assert u[m] == t[m]; }
    if n < |u| { assert u[n] == t[n]; }
  }

  lemma SplitStale(st: AllocState, p: OwnedPtr, i: nat)
    requires Inv(st) && p.Clear(st.ptr) && p.size > 0 && Count(st.blocks) == |st.blocks|
    requires i < |st.blocks| && Splits(st.blocks[i], p)
    requires NewStorage(LeftBack(st, p), Range(Right(st, p))).Some?
    ensures StaleMerge(Right(st, p), st.ptr, NewStorage(LeftBack(st, p), Range(Right(st, p))).value)
            <==> SplitTouches(st, st.blocks[i], p)
  {
    hide Disjoint, Coalesced, Count, At, LeftPart, RightPart, Carve, AfterLeft, Hosted, SizeAlign, Placement, Aligned;
    var t, b := st.blocks, st.blocks[i];
    SplitSlot(t, p, i);
    StorageSizes(st, st);
    var r := Right(st, p);
    var size := TableBytes(Grown(|t|), st.page);
    var taken := NewStorage(LeftBack(st, p), Range(r)).value;
    CarveLength(t, p);
    if b.used {
      SameSearch(t, i, LeftPart(t, p.addr, p.End()), size, st.page, Range(r));
      TakenElsewhere(st, p);
    }
  }

  /** The new place does not reach into the range. */
  lemma TakenElsewhere(st: AllocState, p: OwnedPtr)
    requires Sound(st) && p.size > 0 && NewStorage(LeftBack(st, p), Range(Right(st, p))).Some?
    ensures NewStorage(LeftBack(st, p), Range(Right(st, p))).value.End() != p.End()
  {
    hide Disjoint, Count, At, LeftPart, RightPart, Carve, AfterLeft, Hosted, SizeAlign, Placement, Aligned;
    var s := LeftBack(st, p);
    var taken := NewStorage(s, Range(Right(st, p))).value;
    CarveLength(st.blocks, p);
    TableBytesPositive(Grown(|s.blocks|), s.page);
    PlacementSafe(s.blocks, TableBytes(Grown(|s.blocks|), s.page), s.page, Range(Right(st, p)));
    LeftBytes(st.blocks, p, p.End() - 1);
    if taken.End() == p.End() {
      LeftDisjoint(st, p);
      HoldsAt(s.blocks, taken.addr, taken.End(), Conv, false, p.End() - 1);
    }
  }

  lemma LeftDisjoint(st: AllocState, p: OwnedPtr)
    requires Sound(st)
    ensures Disjoint(LeftBack(st, p).blocks)
  {
    hide AfterLeft, Disjoint;
    LeftPaints(st.blocks, p);
  }

  /** What `FreeCoalescedIff` calls stale, in terms of the table before the call. */
  lemma StaleMeans(st: AllocState, p: OwnedPtr)
    requires Inv(st) && p.Clear(st.ptr) && FreeF(st, p).Some?
    ensures Stale(st, p) <==> Touches(st, p)
  {
    hide Disjoint, Coalesced, AfterLeft, Count, At, LeftPart, RightPart, Carve, CutOut, NewStorage, FreeF, Layout,
         Hosted, Grows, StaleMerge, NeedsSlot, SplitTouches, PlaceOutside;
    if p.size == 0 {
      FreeNothing(st, p);
      NothingNeeded(st.blocks, p);
      return;
    }
    FreeFailsIff(st, p);
    SplitIff(st.blocks, p);
    if SplitsFull(st.blocks, p) {
      SplitPlace(st, p);
      forall i: nat | i < |st.blocks| && Splits(st.blocks[i], p)
        ensures Stale(st, p) <==> SplitTouches(st, st.blocks[i], p)
      {
        SplitStale(st, p, i);
      }
    } else {
      MiddleIff(st, p);
      MiddlePlace(st, p);
      MiddleStale(st, p);
    }
  }

  lemma MiddleStale(st: AllocState, p: OwnedPtr)
    ensures forall taken: OwnedPtr :: StaleMerge(Middle(p), st.ptr, taken) <==> Adjacent(Middle(p), st.ptr)
  {}

  /** `free` keeps a coalesced table coalesced exactly when it does not grow the table
      while it still holds a record that touches it. */
  lemma FreeMergesIff(st: AllocState, p: OwnedPtr)
    requires Inv(st) && p.Clear(st.ptr) && FreeF(st, p).Some? && !SplitsFullTable(st, p)
    ensures Coalesced(FreeF(st, p).value.blocks) <==> !Touches(st, p)
  {
    hide Disjoint, Coalesced, FreeF, Layout, Hosted, Stale, Touches, Conflict, SplitsFullTable;
    ConflictMeans(st, p);
    StaleMeans(st, p);
    FreeCoalescedIff(st, p, FreeF(st, p).value);
  }

  // ---- A free that leaves records unmerged ----

  /** All slots but one in use; the table lies in the middle of a used record. */
  function NearlyFull(): Table {
    seq(BASE_RB_SIZE, i requires 0 <= i < BASE_RB_SIZE =>
      if i == 0 then RAMBlock(0x1000, 0x7000, Conv, true)
      else if i == 1 then RAMBlock(0x10000, 0x8000, Conv, false)
      else if i == 2 then INVALID
      else RAMBlock(0x100000 * i, 0x1000, KernelData, true))
  }

  function NearlyFullState(): AllocState {
    AllocState(NearlyFull(), OwnedPtr(0x4000, 0x1000), 0x1000)
  }

  lemma NearlyFullInv()
    ensures Inv(NearlyFullState()) && Count(NearlyFull()) == BASE_RB_SIZE - 1
  {
    var t := NearlyFull();
    NearlyFullRecords();
    hide NearlyFull, Disjoint, Coalesced;
    WholePagesIff(0x1000);
    assert TableBytes(BASE_RB_SIZE, 0x1000) == 0x1000 by { BaseTableBytes(0x1000); }
    assert Houses(t[0], 0x4000, 0x5000, Conv, true);
  }

  lemma NearlyFullRecords()
    ensures var t := NearlyFull();
            && |t| == BASE_RB_SIZE && Count(t) == BASE_RB_SIZE - 1 && t[0] == RAMBlock(0x1000, 0x7000, Conv, true)
            && Disjoint(t) && Coalesced(t)
  {
    var t := NearlyFull();
    var u := t[2 := RAMBlock(0x200000, 0x1000, KernelData, true)];
    CountFull(u);
    CountUpdate(u, 2, INVALID);
    assert u[2 := INVALID] == t;
    hide Count;
    forall i, j | 0 <= i < |t| && 0 <= j < |t| ensures t[i].IsMergable(t[j]) != -1 {}
    forall i, j | 0 <= i < |t| && 0 <= j < |t| && i != j ensures Apart(t[i], t[j]) {}
  }

  /** Freeing the page right behind the table uses up the last slot for the parts and moves
      the table away: the page and the table's former storage stay two free records. */
  lemma FreeCanFragment()
    ensures var st, p := NearlyFullState(), OwnedPtr(0x5000, 0x1000);
            && Inv(st) && p.Clear(st.ptr) && (forall a: nat :: p.Covers(a) ==> At(st.blocks, a) == Ram(Conv, true))
            && FreeF(st, p).Some? && Disjoint(FreeF(st, p).value.blocks) && !Coalesced(FreeF(st, p).value.blocks)
  {
    hide Disjoint, Coalesced, At, FreeF, Layout, Hosted, Count, LeftPart, RightPart, Carve;
    var st, p := NearlyFullState(), OwnedPtr(0x5000, 0x1000);
    var t := st.blocks;
    NearlyFullInv();
    assert Houses(t[0], 0x1000, 0x8000, Conv, true);
    forall a: nat | 0x1000 <= a < 0x8000 ensures At(t, a) == Ram(Conv, true) {
      HoldsAt(t, 0x1000, 0x8000, Conv, true, a);
    }
    CarveSingle(t, p.addr, p.End(), 0);
    PartsSingle(t, p.addr, p.End(), 0);
    assert NeedsSlot(t, p);
    NearlyFullPlace(p);
    FreeFailsIff(st, p);
    FreeMergesIff(st, p);
    ConflictMeans(st, p);
    FreeDisjointIff(st, p, FreeF(st, p).value);
  }

  lemma NearlyFullPlace(p: OwnedPtr)
    requires p == OwnedPtr(0x5000, 0x1000)
    ensures PlaceOutside(NearlyFullState(), p, OwnedPtr(0, 0))
  {
    hide Disjoint, Coalesced, At, Layout, Hosted, Count;
    var st := NearlyFullState();
    NearlyFullInv();
    assert Houses(st.blocks[1], 0x10000, 0x18000, Conv, false);
    assert TableBytes(2 * BASE_RB_SIZE, 0x1000) == 0x2000 by { Multiple(2, 6144); }
    forall x: nat | 0x10000 <= x < 0x12000 ensures At(st.blocks, x) == Ram(Conv, false) {
      HoldsAt(st.blocks, 0x10000, 0x18000, Conv, false, x);
    }
    assert SpotOutside(st, p, OwnedPtr(0, 0), 0x10000);
  }
}
