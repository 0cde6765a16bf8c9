/** The allocator itself: mutually recursive methods that edit the record table in
    place. Each computes its specification function. A call that resizes the table has
    rank 1, any other call rank 0; a resize only makes calls of rank 0, so the
    recursion alloc - expand - add - free - shrink terminates. */
module PhysAlloc {
  import opened Align
  import opened RamTable
  import opened Repainting
  import opened PhysSpec
  import opened PhysResize
  import opened PhysAllocate
  import opened PhysCanon
  import opened PhysFree
  import opened PhysRun
  import opened Wrappers

  /** Serving the request grows the table, or shrinks it after closing a gap. */
  predicate AllocResizes(st: AllocState, params: AllocParams) {
    var args := params.Build(st.page);
    var p := Target(st.blocks, args, st.page);
    p.Some? && (Crowded(st.blocks) ||
                var t := Split(st.blocks, args, p.value);
                t.Some? && Sparse(t.value, RAMBlock(p.value.addr, p.value.size, args.asType, args.used)))
  }

  predicate FreeResizes(t: Table, p: OwnedPtr) {
    !QuietRepaint(t, p.addr, p.End(), Conv, false)
  }

  ghost predicate AllocReady(st: AllocState, params: AllocParams) {
    BasePage(st.page) && Disjoint(st.blocks) && (Sound(st) || !AllocResizes(st, params))
  }

  lemma ReadyAfterExpand(st: AllocState)
    requires Sound(st)
    ensures BasePage(st.page) && Disjoint(st.blocks)
  {}

  /** The first two insertions of `alloc` find room and close no gap. */
  lemma SplitQuiet(t: Table, args: AllocParams, p: OwnedPtr, i: nat)
    requires Disjoint(t) && !Crowded(t) && p.size > 0
    requires i == First(t, HostFilter(args.fromType, p)) < |t|
    requires args.fromType != args.asType || args.used
    ensures var t0 := t[i := t[i].Invalidate()];
            var t1 := Insert(t0, Before(t[i], p));
            && !Resizes(t0, Before(t[i], p)) && !Resizes(t1, After(t[i], p))
            && |t1| == |t| && Split(t, args, p) == Some(Insert(t1, After(t[i], p)))
            && !Grows(Insert(t1, After(t[i], p)), RAMBlock(p.addr, p.size, args.asType, args.used))
            && |Insert(t1, After(t[i], p))| == |t|
  {
    hide Disjoint, Coalesced, At, Count, Insert, Carve, LeftPart, RightPart, Isolated, Bridges, Painted;
    var lo, hi := p.addr, p.End();
    assert Houses(t[i], lo, hi, args.fromType, false);
    CarveSingle(t, lo, hi, i);
    PartsSingle(t, lo, hi, i);
    PartsNoBridge(t, lo, hi);
    var t1, t2, t3 := RepaintStages(t, lo, hi, args.asType, args.used);
    var c, l, r := Carve(t, lo, hi), LeftPart(t, lo, hi), RightPart(t, lo, hi);
    InsertAlike(c, Before(t[i], p), l);
    InsertAlike(t1, After(t[i], p), r);
    BridgesAlike(c, Before(t[i], p), l);
    BridgesAlike(t1, After(t[i], p), r);
  }

  lemma BridgesAlike(t: Table, b: RAMBlock, c: RAMBlock)
    requires b == c || (!b.Valid() && !c.Valid())
    ensures Bridges(t, b) == Bridges(t, c)
  {}

  /** Right before the last insertion of `alloc` the table can be shrunk if need be. */
  lemma SplitPending(st: AllocState, args: AllocParams, p: OwnedPtr)
    requires Sound(st) && !Crowded(st.blocks) && p.size > 0 && Split(st.blocks, args, p).Some?
    ensures Pending(st.(blocks := Split(st.blocks, args, p).value), RAMBlock(p.addr, p.size, args.asType, args.used))
  {
    hide Disjoint, Coalesced, At, Count, Insert, Carve, LeftPart, RightPart, Isolated, Bridges, SizeAlign, Aligned;
    var t, lo, hi := st.blocks, p.addr, p.End();
    SplitHost(t, args, p);
    AllocHereRepaints(t, args, p);
    var t1, t2, t3 := RepaintStages(t, lo, hi, args.asType, args.used);
    var m := RAMBlock(lo, hi - lo, args.asType, args.used);
    StorageSizes(st, st);
    RangesDisjoint(t, st.ptr.addr, st.ptr.End(), lo, hi, args.fromType);
    CutHolds(t, lo, hi, st.ptr.addr, st.ptr.End());
    LayoutOnly(st, t2);
    PartsFresh(t, lo, hi, args.asType, args.used);
    PaintedFresh(Carve(t, lo, hi), LeftPart(t, lo, hi), t1, m);
    PaintedFresh(t1, RightPart(t, lo, hi), t2, m);
  }

  /** A used range outside the cut survives the cut. */
  lemma CutHolds(t: Table, lo: nat, hi: nat, s: nat, e: nat)
    requires Disjoint(t) && lo <= hi && Roomy(t, lo, hi)
    requires Holds(t, s, e, Conv, true) && s < e && (e <= lo || hi <= s)
    ensures Holds(CutOut(t, lo, hi), s, e, Conv, true)
  {
    hide Disjoint, Coalesced, At, Count, Insert, LeftPart, RightPart;
    var t1, t2, t3 := RepaintStages(t, lo, hi, Conv, false);
    var c, l, r := Carve(t, lo, hi), LeftPart(t, lo, hi), RightPart(t, lo, hi);
    var i :| 0 <= i < |t| && Houses(t[i], s, e, Conv, true);
    PartsCover(t, lo, hi, i, s);
    PartsCover(t, lo, hi, i, e - 1);
    if !t[i].Overlaps(lo, hi) {
      assert Houses(c[i], s, e, Conv, true);
      HoldsStep(c, l, t1, s, e, Conv, true);
      HoldsStep(t1, r, t2, s, e, Conv, true);
    } else if e <= lo {
      HoldsPart(t1, l, s, e);
      HoldsStep(t1, r, t2, s, e, Conv, true);
    } else {
      HoldsPart(t2, r, s, e);
    }
  }

  /** A table that `add` wants to shrink is sound once the record is merged in. */
  lemma MergedSound(st: AllocState, b: RAMBlock)
    requires Pending(st, b) && Sparse(st.blocks, b)
    ensures Sound(st.(blocks := Insert(st.blocks, b)))
    ensures |Insert(st.blocks, b)| == |st.blocks| && Count(Insert(st.blocks, b)) + 1 < Halved(|st.blocks|)
  {
    hide Disjoint, Coalesced, At, Count, Insert, Isolated, SizeAlign, Aligned, Fresh;
    BridgesNotIsolated(st.blocks, b);
    InsertPaints(st.blocks, b);
    HoldsStep(st.blocks, b, Insert(st.blocks, b), st.ptr.addr, st.ptr.End(), Conv, true);
    LayoutOnly(st, Insert(st.blocks, b));
  }

  lemma BridgesNotIsolated(t: Table, b: RAMBlock)
    requires Bridges(t, b)
    ensures !Isolated(t, b)
  {}

  /** The last of the first `i` records that the range cuts and that reaches out to the
      left (or right). */
  function Cut(t: Table, p: OwnedPtr, left: bool, i: nat): Option<RAMBlock>
    requires i <= |t|
  {
    var k := LastCut(t, p.addr, p.End(), left, i);
    if k < 0 then None else Some(t[k])
  }

  /** The table with the range carved out of its first `i` records. */
  function CarvedTo(t: Table, p: OwnedPtr, i: nat): (c: Table)
    requires i <= |t|
    ensures |c| == |t| && c[i..] == t[i..]
  {
    Carve(t, p.addr, p.End())[..i] + t[i..]
  }

  lemma CutNone(t: Table, p: OwnedPtr)
    ensures Cut(t, p, true, 0) == None && Cut(t, p, false, 0) == None && CarvedTo(t, p, 0) == t
  {}

  lemma CutNext(t: Table, p: OwnedPtr, i: nat)
    requires i < |t|
    ensures CarvedTo(t, p, i)[i] == t[i]
    ensures Cut(t, p, true, i + 1) ==
              if t[i].Overlaps(p.addr, p.End()) && t[i].addr < p.addr then Some(t[i]) else Cut(t, p, true, i)
    ensures Cut(t, p, false, i + 1) ==
              if t[i].Overlaps(p.addr, p.End()) && t[i].End() > p.End() then Some(t[i]) else Cut(t, p, false, i)
    ensures CarvedTo(t, p, i + 1) ==
              if t[i].Overlaps(p.addr, p.End()) then CarvedTo(t, p, i)[i := t[i].Invalidate()] else CarvedTo(t, p, i)
  {}

  lemma CutAll(t: Table, p: OwnedPtr)
    ensures CarvedTo(t, p, |t|) == Carve(t, p.addr, p.End())
    ensures match Cut(t, p, true, |t|)
            case Some(b) => b.addr < p.addr &&
                            LeftPart(t, p.addr, p.End()) == RAMBlock(b.addr, p.addr - b.addr, b.ty, b.used)
            case None => !LeftPart(t, p.addr, p.End()).Valid()
    ensures match Cut(t, p, false, |t|)
            case Some(b) => p.End() < b.End() &&
                            RightPart(t, p.addr, p.End()) == RAMBlock(p.End(), b.End() - p.End(), b.ty, b.used)
            case None => !RightPart(t, p.addr, p.End()).Valid()
  {}

  lemma InsertCases(t: Table, b: RAMBlock)
    requires b.Valid()
    ensures var l, r := MergeBefore(t, b), MergeAfter(t, b);
            Insert(t, b) ==
              if l >= 0 && r >= 0 then t[l := t[l].(size := t[l].size + b.size + t[r].size)][r := t[r].Invalidate()]
              else if l >= 0 then t[l := t[l].(size := t[l].size + b.size)]
              else if r >= 0 then t[r := t[r].(addr := b.addr, size := t[r].size + b.size)]
              else Put(t, b)
  {
    hide MergeBefore, MergeAfter, Put;
  }

  class PhysAlloc {
    var blocks: Table
    var max: nat
    var ptr: OwnedPtr
    const page: nat

    constructor (blocks: Table, ptr: OwnedPtr, page: nat)
      ensures Valid() && State() == AllocState(blocks, ptr, page)
    {
      this.blocks, this.max, this.ptr, this.page := blocks, |blocks|, ptr, page;
    }

    function State(): AllocState
      reads this
    {
      AllocState(blocks, ptr, page)
    }

    predicate Valid()
      reads this
    {
      max == |blocks|
    }

    /** The number of valid records. */
    method CountValid() returns (n: nat)
      requires Valid()
      ensures n == Count(blocks)
    {
      n := 0;
      for i := 0 to max
        invariant n == Count(blocks[..i])
      {
        assert blocks[..i + 1][..i] == blocks[..i];
        if blocks[i].Valid() { n := n + 1; }
      }
      assert blocks[..max] == blocks;
    }

    method Find(p: RAMBlock -> bool) returns (i: nat)
      requires Valid()
      ensures i == First(blocks, p)
    {
      i := 0;
      while i < max
        invariant i <= max
        invariant First(blocks, p) == FirstFrom(blocks, p, i)
      {
        if blocks[i].Valid() && p(blocks[i]) { return; }
        i := i + 1;
      }
    }

    method FindFreeRam(params: AllocParams) returns (r: Option<OwnedPtr>)
      requires Valid()
      ensures r == PhysSpec.FindFreeRam(blocks, params, page)
    {
      var args := params.Build(page);
      var i := Find(FreeFilter(args));
      if i == max { return None; }
      r := Some(OwnedPtr(AlignUp(blocks[i].addr, args.align), args.size));
    }

    /** Sum of the sizes of the valid records that pass the filter. */
    method FiltSizeRaw(f: RAMBlock -> bool) returns (n: nat)
      requires Valid()
      ensures n == FiltSize(blocks, f)
    {
      n := 0;
      for i := 0 to max
        invariant n == FiltSize(blocks[..i], f)
      {
        assert blocks[..i + 1][..i] == blocks[..i];
        if blocks[i].Valid() && f(blocks[i]) { n := n + blocks[i].size; }
      }
      assert blocks[..max] == blocks;
    }

    method Reclaim()
      requires Valid() && Sound(State())
      modifies this
      ensures Valid() && State() == ReclaimF(old(State()))
    {
      hide Disjoint, Coalesced, At, Insert, Grows, Sparse, Layout, Count, Hosted, AddF, Pending, Changed, FiltBytes;
      ghost var st := State();
      var i := Find(IsReclaimable);
      while i < max
        invariant Valid() && Sound(State()) && i == First(blocks, IsReclaimable)
        invariant ReclaimF(st) == ReclaimF(State())
        decreases FiltBytes(blocks, IsReclaimable)
      {
        ghost var before := State();
        ReclaimStepBytes(before);
        ReclaimProgress(before);
        ReclaimReady(before);
        var blk := blocks[i];
        blocks := blocks[i := blk.Invalidate()];
        var ok := Add(RAMBlock(blk.addr, blk.size, Conv, false));
        i := Find(IsReclaimable);
      }
    }

    method Alloc(params: AllocParams) returns (res: Option<OwnedPtr>)
      requires Valid() && AllocReady(State(), params)
      modifies this
      ensures Valid() && (State(), res) == AllocF(old(State()), params)
      decreases if AllocResizes(State(), params) then 1 else 0, 3
    {
      hide Disjoint, Coalesced, At, Insert, Grows, Sparse, ExpandF, Split, PhysSpec.FindFreeRam, SizeAlign, Layout,
           AllocParams.Build;
      var args := params.Build(page);
      if NonRam(args.fromType) || NonRam(args.asType) { return None; }
      var p: OwnedPtr;
      match args.addr {
        case Some(addr) => p := OwnedPtr(addr, args.size);
        case None =>
          var found := FindFreeRam(args);
          if found.None? { return None; }
          p := found.value;
      }
      assert Target(blocks, args, page) == Some(p);
      TargetShape(blocks, params, page);
      ghost var st := State();
      var count := CountValid();
      if count + MIN_REQ > max {
        MakeRoomMoves(st, p);
        var ok := Expand(Grown(max), p);
        if !ok { return None; }
        ReadyAfterExpand(State());
      }
      assert MakeRoom(st, p) == Some(State());
      assert !Crowded(blocks);
      res := AllocAt(args, p);
    }

    /** The part of `alloc` after the table is known to have room. */
    method AllocAt(args: AllocParams, p: OwnedPtr) returns (res: Option<OwnedPtr>)
      requires Valid() && BasePage(page) && Disjoint(blocks) && !Crowded(blocks) && p.size > 0
      requires var t := Split(blocks, args, p);
               t.Some? && Sparse(t.value, RAMBlock(p.addr, p.size, args.asType, args.used)) ==> Sound(State())
      modifies this
      ensures Valid()
      ensures var t := Split(old(blocks), args, p);
              (t.None? ==> State() == old(State()) && res == None) &&
              (t.Some? ==>
                 && res == Some(p)
                 && State() == AddQuiet(old(State()).(blocks := t.value),
                                        RAMBlock(p.addr, p.size, args.asType, args.used)))
      decreases if (var t := Split(blocks, args, p);
                    t.Some? && Sparse(t.value, RAMBlock(p.addr, p.size, args.asType, args.used))) then 1 else 0, 2, 1
    {
      hide Disjoint, Coalesced, At, Insert, ExpandF, ShrinkF, SizeAlign, Layout, Isolated, Bridges, Count, Pending;
      var i := Find(HostFilter(args.fromType, p));
      if i == max { return None; }
      var from := blocks[i];
      if from.ty == args.asType && !args.used { return None; }
      SplitQuiet(blocks, args, p, i);
      ghost var st := State();
      if Sparse(Split(blocks, args, p).value, RAMBlock(p.addr, p.size, args.asType, args.used)) {
        SplitPending(st, args, p);
      }
      blocks := blocks[i := from.Invalidate()];
      var ok := Add(Before(from, p));
      ok := Add(After(from, p));
      ok := Add(RAMBlock(p.addr, p.size, args.asType, args.used));
      res := Some(p);
    }

    method Free(p: OwnedPtr) returns (ok: bool)
      requires Valid() && Freeable(State(), p)
      modifies this
      ensures Valid()
      ensures ok <==> FreeF(old(State()), p).Some?
      ensures ok ==> State() == FreeF(old(State()), p).value
      decreases if FreeResizes(blocks, p) then 1 else 0, 3
    {
      hide Disjoint, Coalesced, At, Insert, ExpandF, ShrinkF, SizeAlign, Layout, Isolated, Bridges, Count, Pending,
           AddF, FreeF, Grows, Sparse, Changed;
      ghost var st := State();
      var before, after := Carving(p);
      FreeSteps(st, p);
      LeftPaints(st.blocks, p);
      if before.Some? {
        ok := Add(RAMBlock(before.value.addr, p.addr - before.value.addr, before.value.ty, before.value.used));
      }
      assert State() == LeftBack(st, p) by {
        QuietInsert(st.(blocks := Carve(st.blocks, p.addr, p.End())), LeftPart(st.blocks, p.addr, p.End()));
      }
      LeftBackPending(st, p);
      if after.Some? {
        ok := Add(RAMBlock(p.End(), after.value.End() - p.End(), after.value.ty, after.value.used));
        if !ok { return; }
      } else {
        AddInvalid(State(), Right(st, p));
      }
      assert AddF(LeftBack(st, p), Right(st, p)) == Some(State());
      MiddleReady(st, p, State());
      ok := Add(RAMBlock(p.addr, p.size, Conv, false));
    }

    /** The loop of `free`: invalidates every record the range cuts, and remembers the
        last one that reaches out on either side. */
    method Carving(p: OwnedPtr) returns (before: Option<RAMBlock>, after: Option<RAMBlock>)
      requires Valid()
      modifies this`blocks
      ensures Valid() && blocks == Carve(old(blocks), p.addr, p.End())
      ensures before.Some? ==> before.value.addr < p.addr
      ensures before.Some? ==>
                LeftPart(old(blocks), p.addr, p.End()) ==
                RAMBlock(before.value.addr, p.addr - before.value.addr, before.value.ty, before.value.used)
      ensures before.None? ==> !LeftPart(old(blocks), p.addr, p.End()).Valid()
      ensures after.Some? ==> p.End() < after.value.End()
      ensures after.Some? ==>
                RightPart(old(blocks), p.addr, p.End()) ==
                RAMBlock(p.End(), after.value.End() - p.End(), after.value.ty, after.value.used)
      ensures after.None? ==> !RightPart(old(blocks), p.addr, p.End()).Valid()
    {
      hide Carve, Cut, CarvedTo, LeftPart, RightPart;
      before, after := None, None;
      ghost var t := blocks;
      CutNone(t, p);
      for i := 0 to max
        invariant |blocks| == max && blocks == CarvedTo(t, p, i)
        invariant before == Cut(t, p, true, i) && after == Cut(t, p, false, i)
      {
        CutNext(t, p, i);
        var block := blocks[i];
        if block.Valid() && block.addr < p.End() && block.End() > p.addr {
          if block.addr < p.addr { before := Some(block); }
          if block.End() > p.End() { after := Some(block); }
          blocks := blocks[i := block.Invalidate()];
        }
      }
      CutAll(t, p);
    }

    method Add(b: RAMBlock) returns (ok: bool)
      requires Valid() && (Resizes(blocks, b) ==> Pending(State(), b))
      modifies this
      ensures Valid()
      ensures ok <==> AddF(old(State()), b).Some?
      ensures ok ==> State() == AddF(old(State()), b).value
      decreases if Resizes(blocks, b) then 1 else 0, 2, 0
    {
      hide Disjoint, Coalesced, At, ExpandF, ShrinkF, SizeAlign, Layout, Count, Pending, Insert, Put, MergeBefore,
           MergeAfter;
      ok := true;
      if !b.Valid() { return; }
      var before, after := Neighbours(b);
      ghost var st := State();
      InsertCases(st.blocks, b);
      if before >= 0 && after >= 0 {
        var size := blocks[before].size + b.size + blocks[after].size;
        blocks := blocks[before := blocks[before].(size := size)];
        blocks := blocks[after := blocks[after].Invalidate()];
        assert blocks == Insert(st.blocks, b);
        var count := CountValid();
        if count <= max / 4 {
          MergedSound(st, b);
          Shrink(Halved(max));
        }
      } else if before >= 0 {
        blocks := blocks[before := blocks[before].(size := blocks[before].size + b.size)];
      } else if after >= 0 {
        blocks := blocks[after := blocks[after].(addr := b.addr, size := blocks[after].size + b.size)];
      } else {
        var count := CountValid();
        if count >= max {
          CarriedGrowable(st, b);
          ok := Expand(Grown(max), OwnedPtr(b.addr, b.size));
          if !ok { return; }
        }
        PutFirst(b);
      }
    }

    /** The scan of `add` for the records that end or begin where `b` does. */
    method Neighbours(b: RAMBlock) returns (before: int, after: int)
      requires Valid()
      ensures before == MergeBefore(blocks, b) && after == MergeAfter(blocks, b)
    {
      before, after := -1, -1;
      for i := 0 to max
        invariant before == LastMerge(blocks, b, 1, i) && after == LastMerge(blocks, b, -1, i)
      {
        var m := b.IsMergable(blocks[i]);
        if m == -1 { after := i; }
        if m == 1 { before := i; }
      }
    }

    /** Writes the record into the first unused slot. */
    method PutFirst(b: RAMBlock)
      requires Valid()
      modifies this`blocks
      ensures Valid() && blocks == Put(old(blocks), b)
    {
      var i := 0;
      while i < max
        invariant i <= max
        invariant FirstInvalid(blocks, 0) == FirstInvalid(blocks, i)
      {
        if !blocks[i].Valid() {
          blocks := blocks[i := b];
          return;
        }
        i := i + 1;
      }
    }

    method Expand(newMax: nat, p: OwnedPtr) returns (ok: bool)
      requires Valid() && newMax == Grown(max) && Growable(State(), p) && Crowded(blocks)
      modifies this
      ensures Valid()
      ensures ok <==> ExpandF(old(State()), newMax, p).Some?
      ensures if ok then State() == ExpandF(old(State()), newMax, p).value else State() == old(State())
      decreases 1, 1
    {
      hide Disjoint, Sound, Growable, Crowded, NewStorage, Claimed, FreeHere, AllocF, AllocResizes, FreeF,
           FreeResizes, Freeable, ExpandF, First, PlaceFilter, StartClear, AlignUp, BasePage, AllocParams.Build;
      if newMax <= max { return true; }
      var args := NewParams(newMax * RECORD_BYTES, page).Build(page);
      var oldBlocks := ptr;
      var i := Find(PlaceFilter(args.size, args.align, p));
      ghost var st := State();
      ExpandCases(st, p);
      if i == max { return false; }
      var addr := if StartClear(blocks[i], args.size, args.align, p)
        then AlignUp(blocks[i].addr, args.align) else AlignUp(p.End(), args.align);
      ghost var r := OwnedPtr(addr, args.size);
      blocks := blocks + Padding(newMax - max);
      ptr, max := OwnedPtr(addr, args.size), newMax;
      ClaimByAlloc(st, p, r, args.(addr := Some(addr)));
      var new' := Alloc(args.(addr := Some(addr)));
      ptr := new'.value;
      ReleaseReady(st, p, r);
      ok := Free(oldBlocks);
    }

    method Shrink(newMax: nat)
      requires Valid() && Sound(State()) && BASE_RB_SIZE <= newMax && Count(blocks) + 1 < newMax
      modifies this
      ensures Valid() && State() == ShrinkF(old(State()), newMax)
      decreases 1, 1
    {
      hide Disjoint, Coalesced, At, Insert, SizeAlign, Isolated, Bridges, Count, AddF, FreeF, Grows, Sparse, Changed,
           Carve, LeftPart, RightPart, Aligned, Compact, WholePages;
      var count := CountValid();
      if newMax >= max || newMax < count || newMax < MIN_REQ { return; }
      ghost var st := State();
      var moved := Compaction(newMax);
      CompactKeeps(st.blocks, newMax, |st.blocks|, 0);
      var keptSize := SizeAlign(newMax * RECORD_BYTES, page);
      var freedAddr := AlignUp(ptr.addr + keptSize, page);
      TableBytesPositive(newMax, page);
      SizeAlignMonotone(newMax * RECORD_BYTES, |st.blocks| * RECORD_BYTES, page);
      var freedSize := ptr.size - keptSize;
      if freedSize == 0 { return; }
      var freed := OwnedPtr(freedAddr, freedSize);
      blocks, max := blocks[..newMax], newMax;
      ptr := OwnedPtr(ptr.addr, keptSize);
      ShrinkReady(st, newMax, State(), freed);
      var ok := Free(freed);
    }

    /** The loop of `shrink`: moves the records out of the slots to be given up. */
    method Compaction(n: nat) returns (moved: bool)
      requires Valid() && n <= max
      modifies this`blocks
      ensures Valid() && (blocks, moved) == Compact(old(blocks), n, |old(blocks)|, 0)
    {
      var j, slot := max, 0;
      while j > n
        invariant |blocks| == max && slot <= n <= j <= max
        invariant Compact(old(blocks), n, |old(blocks)|, 0) == Compact(blocks, n, j, slot)
      {
        if blocks[j - 1].Valid() {
          var s := slot;
          while s < n && blocks[s].Valid()
            invariant slot <= s <= n
            invariant FirstInvalid(blocks[..n], slot) == FirstInvalid(blocks[..n], s)
          {
            s := s + 1;
          }
          if s == n { return false; }
          blocks := blocks[s := blocks[j - 1]];
          blocks := blocks[j - 1 := blocks[j - 1].Invalidate()];
          slot := s + 1;
        }
        j := j - 1;
      }
      moved := true;
    }
  }

  /** What `expand` computes, in terms of the record its search finds. */
  lemma ExpandCases(st: AllocState, p: OwnedPtr)
    requires Growable(st, p)
    ensures var n := Grown(|st.blocks|);
            var args := NewParams(n * RECORD_BYTES, st.page).Build(st.page);
            var i := First(st.blocks, PlaceFilter(args.size, args.align, p));
            && (i == |st.blocks| ==> ExpandF(st, n, p) == None)
            && (i < |st.blocks| ==>
                  var addr := if StartClear(st.blocks[i], args.size, args.align, p)
                              then AlignUp(st.blocks[i].addr, args.align) else AlignUp(p.End(), args.align);
                  var r := OwnedPtr(addr, args.size);
                  && NewStorage(st, p) == Some(r)
                  && ExpandF(st, n, p) == Some(AllocState(FreeHere(Claimed(st, r), st.ptr), r, st.page)))
  {
    hide Disjoint, Coalesced, At, Insert, SizeAlign, Count, AllocHere, Repaint, Layout, StoragePlaced, Aligned;
    if NewStorage(st, p).Some? { ClaimRoom(st, p); }
  }

  /** A reclaimed record can be added back. */
  lemma ReclaimReady(st: AllocState)
    requires Sound(st) && First(st.blocks, IsReclaimable) < |st.blocks|
    ensures var i := First(st.blocks, IsReclaimable);
            Pending(st.(blocks := st.blocks[i := st.blocks[i].Invalidate()]), FirstReclaimable(st))
  {
    hide Count, At, Disjoint, Coalesced, Insert, Isolated, Bridges, First;
    var i := First(st.blocks, IsReclaimable);
    RemovedRecord(st.blocks, i);
    var st1 := st.(blocks := st.blocks[i := st.blocks[i].Invalidate()]);
    LayoutOnly(st, st1.blocks);
    var k :| 0 <= k < |st.blocks| && Houses(st.blocks[k], st.ptr.addr, st.ptr.End(), Conv, true);
    assert Houses(st1.blocks[k], st.ptr.addr, st.ptr.End(), Conv, true);
  }

  lemma QuietInsert(st: AllocState, b: RAMBlock)
    requires !Resizes(st.blocks, b)
    ensures AddF(st, b) == Some(st.(blocks := Insert(st.blocks, b)))
  {}

  /** When `free` comes to its last record, either nothing can resize any more or the
      table is sound. */
  lemma MiddleReady(st: AllocState, p: OwnedPtr, s2: AllocState)
    requires Freeable(st, p) && AddF(LeftBack(st, p), Right(st, p)) == Some(s2)
    ensures Resizes(s2.blocks, Middle(p)) ==> Pending(s2, Middle(p))
    ensures !FreeResizes(st.blocks, p) ==> !Resizes(s2.blocks, Middle(p))
  {
    hide Disjoint, Coalesced, At, Insert, SizeAlign, Isolated, Bridges, Count, AddF, Changed, Carve, LeftPart,
         RightPart, Layout, Hosted;
    if !FreeResizes(st.blocks, p) {
      QuietInsert(LeftBack(st, p), Right(st, p));
    } else if Conflict(st, p) {
      var s1, r := LeftBack(st, p), Right(st, p);
      LeftBackPending(st, p);
      GrowsValid(s1.blocks, r);
      CarveLength(st.blocks, p);
      AddGrowBroken(s1, r);
      LayoutRecords(st);
      QuietAfterGrowth(s2, |st.blocks|, Middle(p));
    } else {
      RightSound(st, p, s2);
      MiddleFresh(st, p, s2);
      ResizesValid(s2.blocks, Middle(p));
    }
  }

  lemma ResizesValid(t: Table, b: RAMBlock)
    ensures Resizes(t, b) ==> b.Valid()
  {}

  /** The allocation inside `expand` resizes nothing and yields the claimed table. */
  lemma ClaimByAlloc(st: AllocState, p: OwnedPtr, r: OwnedPtr, args: AllocParams)
    requires Growable(st, p) && NewStorage(st, p) == Some(r) && Crowded(st.blocks)
    requires args == NewParams(Grown(|st.blocks|) * RECORD_BYTES, st.page).Build(st.page).(addr := Some(r.addr))
    ensures var s := AllocState(Padded(st), r, st.page);
            && BasePage(st.page) && Disjoint(Padded(st))
            && !AllocResizes(s, args)
            && AllocF(s, args) == (AllocState(Claimed(st, r), r, st.page), Some(r))
  {
    hide Disjoint, Coalesced, At, Insert, SizeAlign, Isolated, Bridges, Count, Carve, LeftPart, RightPart, AlignUp,
         Aligned, Holds, SameRecords, WholePages, Placement, Padded;
    PaddedReady(st, p);
    ExpandQuiet(st, p, r);
    assert Disjoint(Padded(st)) by { RecordsDisjoint(st.blocks, Padded(st)); }
    TableBytesPositive(Grown(|st.blocks|), st.page);
    AlignUpFixed(r.addr, st.page);
    AllocHereRepaints(Padded(st), args.Build(st.page), r);
  }

  lemma RecordsDisjoint(t: Table, t': Table)
    requires SameRecords(t, t')
    ensures Disjoint(t')
  {}

  /** The release inside `expand` resizes nothing. */
  lemma ReleaseReady(st: AllocState, p: OwnedPtr, r: OwnedPtr)
    requires Growable(st, p) && NewStorage(st, p) == Some(r) && Crowded(st.blocks)
    ensures var s := AllocState(Claimed(st, r), r, st.page);
            && Freeable(s, st.ptr) && !FreeResizes(s.blocks, st.ptr)
            && FreeF(s, st.ptr) == Some(s.(blocks := FreeHere(s.blocks, st.ptr)))
  {
    hide Disjoint, Coalesced, At, Insert, SizeAlign, Isolated, Bridges, Count, Carve, LeftPart, RightPart, AlignUp,
         Aligned, Claimed, FreeF, WholePages;
    PaddedReady(st, p);
    ExpandQuiet(st, p, r);
    ClaimedBytes(st, p, r);
    ClaimedStorage(st, p, r);
    QuietFree(AllocState(Claimed(st, r), r, st.page), st.ptr);
  }

  lemma QuietFree(s: AllocState, p: OwnedPtr)
    requires !FreeResizes(s.blocks, p)
    ensures FreeF(s, p) == Some(s.(blocks := FreeHere(s.blocks, p)))
  {
    hide Insert, Resizes, Carve, LeftPart, RightPart, AddF;
    var c := Carve(s.blocks, p.addr, p.End());
    var l, r := LeftPart(s.blocks, p.addr, p.End()), RightPart(s.blocks, p.addr, p.End());
    QuietInsert(s.(blocks := c), l);
    QuietInsert(s.(blocks := Insert(c, l)), r);
    QuietInsert(s.(blocks := Insert(Insert(c, l), r)), Middle(p));
  }

  /** The release inside `shrink` resizes nothing. */
  lemma ShrinkReady(st: AllocState, n: nat, s: AllocState, freed: OwnedPtr)
    requires Sound(st) && BASE_RB_SIZE <= n < |st.blocks| && Count(st.blocks) + 1 < n
    requires TableBytes(n, st.page) < st.ptr.size && freed == ShrinkFreed(st.ptr, n, st.page)
    requires s == AllocState(Compact(st.blocks, n, |st.blocks|, 0).0[..n],
                             OwnedPtr(st.ptr.addr, TableBytes(n, st.page)), st.page)
    ensures Freeable(s, freed) && !FreeResizes(s.blocks, freed)
    ensures FreeF(s, freed) == Some(s.(blocks := FreeHere(s.blocks, freed)))
  {
    hide Disjoint, Coalesced, At, Insert, SizeAlign, Isolated, Bridges, Count, Carve, LeftPart, RightPart, AlignUp,
         Compact, FreeF, Aligned;
    var kept := TableBytes(n, st.page);
    TableBytesPositive(n, st.page);
    CompactKeeps(st.blocks, n, |st.blocks|, 0);
    var u := Compact(st.blocks, n, |st.blocks|, 0).0;
    TruncateKeeps(u, n);
    CompactedSound(st, u);
    CompactedSound(st.(blocks := u), u[..n]);
    ShrinkTailExact(st.ptr, n, st.page);
    ShrinkCut(u[..n], st.ptr, kept);
    ShrinkCutQuiet(u[..n], st.ptr, kept);
    QuietFree(s, freed);
  }
}
