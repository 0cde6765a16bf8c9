/** The damaging `free` in plain terms, a state in which it happens, and the page sizes
    for which the table can be resized at all. */
module PhysDamage {
  import opened Align
  import opened RamTable
  import opened Repainting
  import opened PhysSpec
  import opened PhysResize
  import opened PhysAllocate
  import opened PhysFree
  import opened Wrappers

  /** No slot is unused, and the range, not empty, is cut out of the record that holds the
      table, with other memory of that record before it and the table behind it. */
  ghost predicate SplitsFullTable(st: AllocState, p: OwnedPtr) {
    && p.size > 0 && Count(st.blocks) == |st.blocks|
    && exists i :: 0 <= i < |st.blocks| && SplitsBefore(st.blocks[i], p, st.ptr)
  }

  predicate SplitsBefore(b: RAMBlock, p: OwnedPtr, s: OwnedPtr) {
    b.addr < p.addr && p.End() <= s.addr && Carries(b, s)
  }

  lemma FullAfterCut(t: Table, lo: nat, hi: nat, i: nat, j: nat)
    requires i < |t| && j < |t| && t[i].Overlaps(lo, hi) && t[j].Overlaps(lo, hi)
    requires Count(Carve(t, lo, hi)) >= |t| - 1
    ensures i == j && Count(t) == |t|
  {
    var c := Carve(t, lo, hi);
    CountUpdate(c, i, t[i]);
    CountFull(c[i := t[i]]);
    CountFull(t);
    assert !c[i].Valid() && !c[j].Valid();
    forall k | 0 <= k < |t| ensures t[k].Valid() {
      assert c[i := t[i]][k].Valid();
    }
  }

  predicate Splits(b: RAMBlock, p: OwnedPtr) { b.addr < p.addr && p.End() < b.End() }

  /** No slot is unused, and the range, not empty, leaves a part of one record on either
      side. */
  ghost predicate SplitsFull(t: Table, p: OwnedPtr) {
    p.size > 0 && Count(t) == |t| && exists i :: 0 <= i < |t| && Splits(t[i], p)
  }

  lemma GrowsSplits(t: Table, p: OwnedPtr)
    requires Disjoint(t) && p.size > 0 && Grows(AfterLeft(t, p), RightPart(t, p.addr, p.End()))
    ensures SplitsFull(t, p)
  {
    hide Disjoint, At, Coalesced, Insert, Isolated;
    var lo, hi := p.addr, p.End();
    LeftPaints(t, p);
    LeftNoBridge(t, lo, hi);
    var l, r := LastCut(t, lo, hi, true, |t|), LastCut(t, lo, hi, false, |t|);
    CarveLength(t, p);
    LeftCount(t, p);
    IsolatedValid(AfterLeft(t, p), RightPart(t, lo, hi));
    FullAfterCut(t, lo, hi, l, r);
    assert Splits(t[r], p);
  }

  lemma LeftCount(t: Table, p: OwnedPtr)
    requires Disjoint(t)
    ensures Count(AfterLeft(t, p)) <= Count(Carve(t, p.addr, p.End())) + One(LeftPart(t, p.addr, p.End()))
    ensures LeftPart(t, p.addr, p.End()).Valid() || RightPart(t, p.addr, p.End()).Valid() ==>
              Count(Carve(t, p.addr, p.End())) < |t|
    ensures Coalesced(t) ==>
              Count(AfterLeft(t, p)) >= Count(Carve(t, p.addr, p.End())) + One(LeftPart(t, p.addr, p.End()))
  {
    hide Disjoint, At, Coalesced, Insert, Count;
    var c, l := Carve(t, p.addr, p.End()), LeftPart(t, p.addr, p.End());
    LeftNoBridge(t, p.addr, p.End());
    IsolatedValid(c, l);
    InsertCount(c, l);
    if Coalesced(t) && l.Valid() { LeftIsolated(t, p); }
  }

  /** In a coalesced table a saved part finds nothing new to merge with. */
  lemma LeftIsolated(t: Table, p: OwnedPtr)
    requires Disjoint(t) && Coalesced(t) && LeftPart(t, p.addr, p.End()).Valid()
    ensures Isolated(Carve(t, p.addr, p.End()), LeftPart(t, p.addr, p.End()))
  {
    hide Disjoint, Coalesced, At, Count;
    var c, l := Carve(t, p.addr, p.End()), LeftPart(t, p.addr, p.End());
    var k := LastCut(t, p.addr, p.End(), true, |t|);
    LeftNoBridge(t, p.addr, p.End());
    var m, n := MergeBefore(c, l), MergeAfter(c, l);
    if m >= 0 { NotBefore(t, m, k); }
    if n >= 0 {
      CarveAt(t, p.addr, p.End(), k, p.addr);
      NoRecordAt(c, n, p.addr);
    }
  }

  lemma NotBefore(t: Table, i: nat, j: nat)
    requires Disjoint(t) && Coalesced(t) && i < |t| && j < |t| && t[i].Valid() && t[j].Valid() && t[i].SameKind(t[j])
    ensures t[i].End() != t[j].addr
  {
    assert t[i].IsMergable(t[j]) != -1;
  }

  lemma SplitsGrows(t: Table, p: OwnedPtr)
    requires Disjoint(t) && Coalesced(t) && p.size > 0 && SplitsFull(t, p)
    ensures Grows(AfterLeft(t, p), RightPart(t, p.addr, p.End()))
  {
    hide Disjoint, At, Coalesced, Insert, Carve, Count, LeftPart, RightPart, Isolated;
    var lo, hi := p.addr, p.End();
    var i :| 0 <= i < |t| && Splits(t[i], p);
    CarveSingle(t, lo, hi, i);
    PartsSingle(t, lo, hi, i);
    LeftCount(t, p);
    CarveLength(t, p);
    LeftPaints(t, p);
    RightIsolated(t, p);
  }

  lemma RightIsolated(t: Table, p: OwnedPtr)
    requires Disjoint(t) && Coalesced(t) && p.size > 0 && RightPart(t, p.addr, p.End()).Valid()
    ensures Isolated(AfterLeft(t, p), RightPart(t, p.addr, p.End()))
  {
    hide Disjoint, Coalesced, At, Count, AfterLeft, RightPart, MergeBefore, MergeAfter;
    var t1, r := AfterLeft(t, p), RightPart(t, p.addr, p.End());
    PartEnds(t, p.addr, p.End());
    LeftBytes(t, p, r.addr - 1);
    NoneBefore(t1, r);
    NothingBehind(t, p);
  }

  /** An empty range merges its two parts again. */
  lemma EmptyQuiet(t: Table, p: OwnedPtr)
    requires Disjoint(t) && p.size == 0
    ensures !Grows(AfterLeft(t, p), RightPart(t, p.addr, p.End()))
  {
    hide Disjoint, At, Count, AfterLeft, RightPart, Fresh, Isolated;
    var r := RightPart(t, p.addr, p.End());
    if r.Valid() {
      var i := RightRecord(t, p);
      AtIn(t, i, p.addr - 1);
      LeftApart(t, p);
      LeftBytes(t, p, p.addr - 1);
      IsolatedBytes(AfterLeft(t, p), r);
    } else {
      IsolatedOnlyValid(AfterLeft(t, p), r);
    }
  }

  lemma IsolatedOnlyValid(t: Table, b: RAMBlock)
    requires !b.Valid()
    ensures !Isolated(t, b)
  {}

  /** The conflict in terms a caller can check before the call. */
  lemma ConflictMeans(st: AllocState, p: OwnedPtr)
    requires Inv(st) && p.Clear(st.ptr)
    ensures Conflict(st, p) <==> SplitsFullTable(st, p)
  {
    hide Disjoint, Coalesced, At, Count, AfterLeft, LeftPart, RightPart, Grows, Layout, Hosted;
    var t := st.blocks;
    StorageSizes(st, st);
    if p.size == 0 { EmptyQuiet(t, p); }
    if Conflict(st, p) {
      GrowsSplits(t, p);
      var i :| 0 <= i < |t| && Splits(t[i], p);
      PartsSingle(t, p.addr, p.End(), i);
      assert SplitsBefore(t[i], p, st.ptr);
    }
    if SplitsFullTable(st, p) {
      var i :| 0 <= i < |t| && SplitsBefore(t[i], p, st.ptr);
      assert Splits(t[i], p);
      SplitsGrows(t, p);
      PartsSingle(t, p.addr, p.End(), i);
    }
  }

  // ---- A state in which it happens ----

  /** A full table: used conventional memory with the table at its end, a free region,
      and 126 allocations of kernel data. */
  function FullTable(): Table {
    seq(BASE_RB_SIZE, i requires 0 <= i < BASE_RB_SIZE =>
      if i == 0 then RAMBlock(0x1000, 0x4000, Conv, true)
      else if i == 1 then RAMBlock(0x10000, 0x8000, Conv, false)
      else RAMBlock(0x100000 * i, 0x1000, KernelData, true))
  }

  function FullState(): AllocState {
    AllocState(FullTable(), OwnedPtr(0x4000, 0x1000), 0x1000)
  }

  lemma FullRecords()
    ensures var t := FullTable(); |t| == BASE_RB_SIZE && Count(t) == |t| && Disjoint(t) && Coalesced(t)
    ensures FullTable()[0] == RAMBlock(0x1000, 0x4000, Conv, true)
  {
    var t := FullTable();
    CountFull(t);
    hide Count;
    forall i, j | 0 <= i < |t| && 0 <= j < |t| ensures t[i].IsMergable(t[j]) != -1 {}
    forall i, j | 0 <= i < |t| && 0 <= j < |t| && i != j ensures Apart(t[i], t[j]) {}
  }

  lemma FullStateInv()
    ensures Inv(FullState()) && Count(FullTable()) == |FullTable()|
  {
    FullRecords();
    hide FullTable, Disjoint, Coalesced;
    WholePagesIff(0x1000);
    assert TableBytes(BASE_RB_SIZE, 0x1000) == 0x1000 by { BaseTableBytes(0x1000); }
    assert Houses(FullTable()[0], 0x4000, 0x5000, Conv, true);
  }

  lemma BaseTableBytes(page: nat)
    requires BasePage(page)
    ensures TableBytes(BASE_RB_SIZE, page) == 0x1000
    ensures page > 0x1000 ==> TableBytes(2 * BASE_RB_SIZE, page) == 0x2000
  {
    Doubling(3072, 0x1000);
    Doubling(6144, 0x2000);
  }

  lemma Doubling(val: nat, pow: nat)
    requires pow == 0x1000 || pow == 0x2000
    requires pow / 2 < val <= pow
    ensures NextPowerOfTwo(val) == pow
  {
    calc {
      NextPowerOfTwo(val);
      DoubleUntil(1, val);
      DoubleUntil(2, val);
      DoubleUntil(4, val);
      DoubleUntil(8, val);
      DoubleUntil(0x10, val);
      DoubleUntil(0x20, val);
      DoubleUntil(0x40, val);
      DoubleUntil(0x80, val);
      DoubleUntil(0x100, val);
      DoubleUntil(0x200, val);
      DoubleUntil(0x400, val);
      DoubleUntil(0x800, val);
      DoubleUntil(0x1000, val);
      DoubleUntil(pow, val);
    }
  }

  /** With the page of the example cut out, the free region is still listed. */
  lemma FullLeftFree(p: OwnedPtr) returns (k: nat)
    requires p == OwnedPtr(0x2000, 0x1000)
    ensures var t1, r := AfterLeft(FullTable(), p), RightPart(FullTable(), p.addr, p.End());
            && k < |t1| == BASE_RB_SIZE && Houses(t1[k], 0x10000, 0x18000, Conv, false)
            && r == RAMBlock(0x3000, 0x2000, Conv, true) && Apart(t1[k], r)
  {
    hide At, Insert, LeftPart, RightPart, Count, Isolated, AfterLeft, Coalesced, Inv;
    var t, t1 := FullTable(), AfterLeft(FullTable(), p);
    assert Disjoint(t) by { FullRecords(); }
    hide Disjoint;
    assert t[0] == RAMBlock(0x1000, 0x4000, Conv, true) && t[1] == RAMBlock(0x10000, 0x8000, Conv, false);
    var c := Carve(t, p.addr, p.End());
    assert c[1] == t[1] && Houses(c[1], 0x10000, 0x18000, Conv, false);
    hide FullTable, Carve;
    PartsSingle(t, p.addr, p.End(), 0);
    LeftPaints(t, p);
    CarveLength(t, p);
    HoldsStep(c, LeftPart(t, p.addr, p.End()), t1, 0x10000, 0x18000, Conv, false);
    k :| 0 <= k < |t1| && Houses(t1[k], 0x10000, 0x18000, Conv, false);
    assert Apart(t1[k], RightPart(t, p.addr, p.End()));
  }

  lemma FullStateGrows(p: OwnedPtr)
    requires p == OwnedPtr(0x2000, 0x1000)
    ensures NewStorage(LeftBack(FullState(), p), Range(Right(FullState(), p))).Some?
  {
    hide At, AfterLeft, RightPart, FullTable, SizeAlign, AlignUp;
    var t1, r := AfterLeft(FullTable(), p), RightPart(FullTable(), p.addr, p.End());
    var k := FullLeftFree(p);
    assert TableBytes(2 * BASE_RB_SIZE, 0x1000) == 0x2000 by { TwicePages(); }
    AlignUpLeast(t1[k].addr, 0x1000);
    assert AlignUp(t1[k].addr, 0x1000) <= 0x10000 by { assert Aligned(0x10000, 0x1000); }
    assert PlaceFilter(0x2000, 0x1000, Range(r))(t1[k]);
  }

  lemma TwicePages()
    ensures TableBytes(2 * BASE_RB_SIZE, 0x1000) == 0x2000
  {
    Multiple(2, 6144);
  }

  lemma Multiple(q: nat, val: nat)
    requires q * 0x1000 - 0x1000 < val <= q * 0x1000 && val >= 0x1000
    ensures AlignUp(val, 0x1000) == q * 0x1000
  {}

  /** From a state that meets the whole invariant, freeing one allocated page can leave
      two records that claim the same memory: the free table then lists the table's
      former storage both as free and as used. */
  lemma FreeCanBreak()
    ensures var st, p := FullState(), OwnedPtr(0x2000, 0x1000);
            && Inv(st) && p.Clear(st.ptr) && (forall a: nat :: p.Covers(a) ==> At(st.blocks, a) == Ram(Conv, true))
            && FreeF(st, p).Some? && !Disjoint(FreeF(st, p).value.blocks)
  {
    hide Disjoint, At, Insert, LeftPart, RightPart, Count, Isolated, AddF, FreeF, NewStorage, AfterLeft, Coalesced,
         Layout, ExpandF;
    var st, p := FullState(), OwnedPtr(0x2000, 0x1000);
    FullStateInv();
    assert Houses(st.blocks[0], 0x2000, 0x3000, Conv, true);
    forall a: nat | p.Covers(a) ensures At(st.blocks, a) == Ram(Conv, true) {
      HoldsAt(st.blocks, 0x2000, 0x3000, Conv, true, a);
    }
    assert SplitsBefore(st.blocks[0], p, st.ptr);
    ConflictMeans(st, p);
    FullStateGrows(p);
    LeftBackPending(st, p);
    FreeSteps(st, p);
    ConflictGoesOn(st, p);
    FreeDisjointIff(st, p, FreeF(st, p).value);
  }

  lemma ConflictGoesOn(st: AllocState, p: OwnedPtr)
    requires Freeable(st, p) && Conflict(st, p)
    requires NewStorage(LeftBack(st, p), Range(Right(st, p))).Some?
    ensures FreeF(st, p).Some?
  {
    hide Disjoint, At, Insert, LeftPart, RightPart, Count, Isolated, FreeF, NewStorage, AfterLeft, Coalesced, ExpandF,
         Sparse;
    var s1, r := LeftBack(st, p), Right(st, p);
    FreeSteps(st, p);
    LeftBackPending(st, p);
    GrowsValid(s1.blocks, r);
    CarriedGrowable(s1, r);
    ExpandMoves(s1, Range(r));
    CarveLength(st.blocks, p);
    AddGrowBroken(s1, r);
    QuietAfterGrowth(AddF(s1, r).value, |st.blocks|, Middle(p));
  }

  // ---- Page sizes ----

  /** Among the configurable page sizes, the rounded table sizes are whole pages only
      for 4 KiB pages. */
  lemma WholePagesIff(page: nat)
    requires BasePage(page)
    ensures WholePages(page) <==> page == 0x1000
  {
    if page == 0x1000 {
      forall n: nat | n >= BASE_RB_SIZE ensures Aligned(TableBytes(n, page), page) {
        if n * RECORD_BYTES < page {
          Doubling(n * RECORD_BYTES, 0x1000);
        } else {
          AlignUpLeast(n * RECORD_BYTES, page);
        }
      }
    } else {
      BaseTableBytes(page);
      assert !Aligned(TableBytes(BASE_RB_SIZE, page), page);
    }
  }

  /** With larger pages, halving a table of 256 records frees memory that lies entirely
      behind the table's own storage. */
  lemma ShrinkFreesForeign(page: nat, ptr: OwnedPtr)
    requires BasePage(page) && page > 0x1000 && Aligned(ptr.addr, page)
    requires ptr.size == TableBytes(2 * BASE_RB_SIZE, page)
    ensures ShrinkFreed(ptr, BASE_RB_SIZE, page).size == 0x1000
    ensures ShrinkFreed(ptr, BASE_RB_SIZE, page).addr >= ptr.End()
  {
    BaseTableBytes(page);
    AlignUpLeast(ptr.addr + 0x1000, page);
    AlignedShift(ptr.addr, 0x1000, page);
    NextMultiple(AlignUp(ptr.addr + 0x1000, page), ptr.addr, page);
  }
}
