/** The effect of `alloc` on the byte map, for every request. */
module PhysAllocate {
  import opened Align
  import opened RamTable
  import opened Repainting
  import opened PhysSpec
  import opened PhysResize
  import opened Wrappers

  lemma ClearByBytes(p: OwnedPtr, q: OwnedPtr)
    requires p.size > 0 && q.size > 0
    requires forall a: nat :: p.Covers(a) ==> !q.Covers(a)
    ensures p.Clear(q)
  {
    var a := if p.addr < q.addr then q.addr else p.addr;
    assert p.Covers(a) ==> !q.Covers(a);
  }

  /** A move of the table, a repaint, and a shrink of the table compose. */
  lemma ChangedChain(st: AllocState, st1: AllocState, b: RAMBlock, st2: AllocState, st3: AllocState)
    requires Moved(st, st1) && st2.ptr == st1.ptr && st2.page == st1.page
    requires forall a: nat :: At(st2.blocks, a) == if b.Covers(a) then Ram(b.ty, b.used) else At(st1.blocks, a)
    requires Moved(st2, st3)
    requires forall a: nat :: st3.ptr.Covers(a) ==> st1.ptr.Covers(a)
    requires forall a: nat :: b.Covers(a) ==> !st1.ptr.Covers(a)
    ensures Changed(st, b, st3)
  {
    hide At, OwnedPtr.Covers, RAMBlock.Covers, Moved;
    forall a: nat
      ensures At(st3.blocks, a) ==
                if st3.ptr.Covers(a) then Ram(Conv, true)
                else if b.Covers(a) then Ram(b.ty, b.used)
                else if st.ptr.Covers(a) then Ram(Conv, false)
                else At(st.blocks, a)
      ensures st3.ptr.Covers(a) && !st.ptr.Covers(a) ==> At(st.blocks, a) == Ram(Conv, false)
    {
      MovedAt(st, st1, a);
      MovedAt(st2, st3, a);
    }
    assert st3.page == st.page by { SamePage(st, st1); SamePage(st2, st3); }
  }

  lemma SamePage(st: AllocState, st': AllocState)
    requires Moved(st, st')
    ensures st'.page == st.page
  {}

  /** A move of the table, seen at one byte. */
  lemma MovedAt(st: AllocState, st': AllocState, a: nat)
    requires Moved(st, st')
    ensures At(st'.blocks, a) ==
              if st'.ptr.Covers(a) then Ram(Conv, true)
              else if st.ptr.Covers(a) then Ram(Conv, false)
              else At(st.blocks, a)
    ensures st'.ptr.Covers(a) && !st.ptr.Covers(a) ==> At(st.blocks, a) == Ram(Conv, false)
  {
    hide At;
    assert !INVALID.Covers(a);
  }

  lemma MovedRefl(st: AllocState)
    requires Sound(st)
    ensures Moved(st, st)
  {
    hide At, Disjoint;
    assert forall a: nat :: !INVALID.Covers(a);
    forall a: nat ensures st.ptr.Covers(a) ==> At(st.blocks, a) == Ram(Conv, true) {
      if st.ptr.Covers(a) { HoldsAt(st.blocks, st.ptr.addr, st.ptr.End(), Conv, true, a); }
    }
  }

  /** After `expand`, or without it, the table has the four spare records that the
      request needs. */
  lemma MakeRoomMoves(st: AllocState, p: OwnedPtr)
    requires Sound(st)
    ensures MakeRoom(st, p).None? <==> Crowded(st.blocks) && NewStorage(st, p).None?
    ensures MakeRoom(st, p).Some? ==>
              var st1 := MakeRoom(st, p).value;
              && Sound(st1) && Moved(st, st1) && !Crowded(st1.blocks)
              && (Coalesced(st.blocks) ==> Coalesced(st1.blocks))
              && (st1 == st || (st1.ptr.Clear(p) && st1.ptr.Clear(st.ptr)))
  {
    hide Count, At, Disjoint, Coalesced, NewStorage, ExpandF, SizeAlign, Aligned;
    MovedRefl(st);
    if Crowded(st.blocks) { ExpandMoves(st, p); }
  }

  /** The last step of `alloc`: painting the range, and shrinking the table if the
      painted record closed a gap in a sparse table. */
  lemma PaintAndShrink(st: AllocState, lo: nat, hi: nat, ty: RAMType, used: bool, from: RAMType)
    requires Sound(st) && !Crowded(st.blocks) && lo < hi
    requires Holds(st.blocks, lo, hi, from, false)
    ensures st.ptr.Clear(OwnedPtr(lo, hi - lo)) && st.ptr.size > 0
    ensures var st2 := st.(blocks := Repaint(st.blocks, lo, hi, ty, used));
            var st3 := AddQuiet(st.(blocks := CutOut(st.blocks, lo, hi)), RAMBlock(lo, hi - lo, ty, used));
            && (forall a: nat :: At(st2.blocks, a) == if lo <= a < hi then Ram(ty, used) else At(st.blocks, a))
            && Sound(st3) && Moved(st2, st3)
            && (Coalesced(st.blocks) ==> Coalesced(st3.blocks))
            && (st3.ptr.addr == st.ptr.addr && st3.ptr.size <= st.ptr.size)
  {
    hide Count, At, Disjoint, Coalesced, Carve, Insert, LeftPart, RightPart, SizeAlign, Aligned, ShrinkF, Bridges;
    var t := st.blocks;
    var i :| 0 <= i < |t| && Houses(t[i], lo, hi, from, false);
    CarveSingle(t, lo, hi, i);
    RepaintBytes(t, lo, hi, ty, used);
    var st2 := st.(blocks := Repaint(t, lo, hi, ty, used));
    TableBytesPositive(|t|, st.page);
    RangesDisjoint(t, st.ptr.addr, st.ptr.End(), lo, hi, from);
    RepaintHolds(t, lo, hi, ty, used, st.ptr.addr, st.ptr.End(), Conv, true);
    LayoutOnly(st, st2.blocks);
    MovedRefl(st2);
    var c := CutOut(t, lo, hi);
    assert |c| == |t| by { CutOutLength(t, lo, hi); }
    if Sparse(c, RAMBlock(lo, hi - lo, ty, used)) {
      ShrinkMoves(st2, Halved(|t|));
    }
  }

  lemma CutOutLength(t: Table, lo: nat, hi: nat)
    ensures |CutOut(t, lo, hi)| == |t|
  {}

  // ---- alloc ----

  /** The aligned, rounded range that a request names or that the search finds. */
  lemma TargetShape(t: Table, params: AllocParams, page: nat)
    requires BasePage(page) && Target(t, params.Build(page), page).Some?
    ensures var p := Target(t, params.Build(page), page).value;
            && p.size == SizeAlign(params.size, page) > 0 && p.size >= params.size
            && Aligned(p.addr, params.align)
  {
    SizeAlignProps(params.size, page);
    var args := params.Build(page);
    if params.addr.Some? {
      AlignUpLeast(params.addr.value, params.align);
    } else {
      var i := First(t, FreeFilter(args.Build(page)));
      AlignUpLeast(t[i].addr, params.align);
    }
  }

  /** `alloc` keeps the invariant. A failed request at most moves the table. A
      successful one returns an aligned range clear of the table, whose bytes were free
      memory of the requested type or storage the table has just left, and changes
      exactly these bytes. */
  lemma AllocBytes(st: AllocState, params: AllocParams)
    requires Sound(st)
    ensures var (st', res) := AllocF(st, params);
            && Sound(st') && (Coalesced(st.blocks) ==> Coalesced(st'.blocks))
            && (res.None? ==> Moved(st, st'))
            && (res.Some? ==>
                  && res.value.size == SizeAlign(params.size, st.page) && res.value.size > 0
                  && Aligned(res.value.addr, params.align)
                  && res.value.Clear(st'.ptr)
                  && Changed(st, RAMBlock(res.value.addr, res.value.size, params.asType, params.used), st')
                  && (forall a: nat {:trigger At(st.blocks, a)} :: res.value.Covers(a) ==>
                        || At(st.blocks, a) == Ram(params.fromType, false)
                        || (params.fromType == Conv && st.ptr.Covers(a))))
  {
    hide Count, At, Disjoint, Coalesced, Layout, Holds, Changed, AddQuiet, Target, Split, MakeRoom, CutOut, Repaint,
         SizeAlign;
    MovedRefl(st);
    var args := params.Build(st.page);
    var p := Target(st.blocks, args, st.page);
    if !NonRam(args.fromType) && !NonRam(args.asType) && p.Some? {
      assert BasePage(st.page) by { LayoutPage(st); }
      TargetShape(st.blocks, params, st.page);
      MakeRoomMoves(st, p.value);
      var m := MakeRoom(st, p.value);
      if m.Some? && Split(m.value.blocks, args, p.value).Some? {
        SplitHost(m.value.blocks, args, p.value);
        AllocHereRepaints(m.value.blocks, args, p.value);
        AllocPaints(st, m.value, p.value, args);
      }
    }
  }

  lemma LayoutPage(st: AllocState)
    requires Layout(st)
    ensures BasePage(st.page)
  {}

  lemma SplitHost(t: Table, args: AllocParams, p: OwnedPtr)
    requires Split(t, args, p).Some?
    ensures Holds(t, p.addr, p.End(), args.fromType, false)
    ensures args.fromType != args.asType || args.used
  {
    var i := First(t, HostFilter(args.fromType, p));
    assert Houses(t[i], p.addr, p.End(), args.fromType, false);
  }

  lemma AllocPaints(st: AllocState, st1: AllocState, p: OwnedPtr, args: AllocParams)
    requires Sound(st1) && Moved(st, st1) && !Crowded(st1.blocks) && p.size > 0
    requires Holds(st1.blocks, p.addr, p.End(), args.fromType, false)
    ensures var b := RAMBlock(p.addr, p.size, args.asType, args.used);
            var st3 := AddQuiet(st1.(blocks := CutOut(st1.blocks, p.addr, p.End())), b);
            && Sound(st3) && (Coalesced(st1.blocks) ==> Coalesced(st3.blocks))
            && Changed(st, b, st3) && p.Clear(st3.ptr)
            && (forall a: nat {:trigger At(st.blocks, a)} :: p.Covers(a) ==>
                  At(st.blocks, a) == Ram(args.fromType, false) || (args.fromType == Conv && st.ptr.Covers(a)))
  {
    hide Count, At, Disjoint, Coalesced, Layout, AddQuiet, CutOut, Repaint, Hosted;
    var b := RAMBlock(p.addr, p.size, args.asType, args.used);
    PaintAndShrink(st1, p.addr, p.End(), args.asType, args.used, args.fromType);
    var st2 := st1.(blocks := Repaint(st1.blocks, p.addr, p.End(), args.asType, args.used));
    var st3 := AddQuiet(st1.(blocks := CutOut(st1.blocks, p.addr, p.End())), b);
    ChangedChain(st, st1, b, st2, st3);
    assert forall a: nat :: !INVALID.Covers(a);
    forall a: nat | p.Covers(a)
      ensures At(st.blocks, a) == Ram(args.fromType, false) || (args.fromType == Conv && st.ptr.Covers(a))
    {
      HoldsAt(st1.blocks, p.addr, p.End(), args.fromType, false, a);
    }
  }
}
