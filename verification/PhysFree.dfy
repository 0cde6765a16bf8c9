/** The effect of `add` and `free` on the byte map, and exactly when a `free` that has
    to grow a full table damages the table. */
module PhysFree {
  import opened Align
  import opened RamTable
  import opened Repainting
  import opened PhysSpec
  import opened PhysResize
  import opened PhysAllocate
  import opened Wrappers

  function Range(b: RAMBlock): OwnedPtr { OwnedPtr(b.addr, b.size) }

  /** `b` is about to be added. The table storage is inside a record, or inside `b`
      while `b` is on its way back into the table. */
  ghost predicate Pending(st: AllocState, b: RAMBlock) {
    && Layout(st) && Disjoint(st.blocks) && b.Valid() && Fresh(st.blocks, b)
    && (Hosted(st) || (Carries(b, st.ptr) && !Sparse(st.blocks, b)))
  }

  predicate Carries(b: RAMBlock, p: OwnedPtr) {
    Houses(b, p.addr, p.End(), Conv, true)
  }

  // ---- add with a free slot ----

  lemma AddQuietSound(st: AllocState, b: RAMBlock)
    requires Pending(st, b) && !Grows(st.blocks, b)
    ensures Sound(AddQuiet(st, b)) && Changed(st, b, AddQuiet(st, b))
    ensures Coalesced(st.blocks) ==> Coalesced(AddQuiet(st, b).blocks)
    ensures AddQuiet(st, b).ptr.addr == st.ptr.addr && AddQuiet(st, b).ptr.size <= st.ptr.size
    ensures Holds(Insert(st.blocks, b), b.addr, b.End(), b.ty, b.used)
  {
    hide Count, At, Disjoint, Coalesced, Insert, SizeAlign, Aligned, ShrinkF, Isolated, Bridges, Fresh;
    var t := Insert(st.blocks, b);
    InsertPaints(st.blocks, b);
    InsertCount(st.blocks, b);
    var st1 := st.(blocks := t);
    LayoutOnly(st, t);
    if Coalesced(st.blocks) { InsertCoalesced(st.blocks, b); }
    if Hosted(st) {
      HoldsStep(st.blocks, b, t, st.ptr.addr, st.ptr.End(), Conv, true);
      MovedRefl(st);
      MovedRefl(st1);
      FreshStorage(st, b);
      if Sparse(st.blocks, b) { ShrinkMoves(st1, Halved(|st.blocks|)); }
      ChangedChain(st, st, b, st1, AddQuiet(st, b));
    } else {
      HoldsPart(t, b, st.ptr.addr, st.ptr.End());
    }
  }

  lemma FreshStorage(st: AllocState, b: RAMBlock)
    requires Disjoint(st.blocks) && Hosted(st) && Fresh(st.blocks, b)
    ensures forall a: nat :: b.Covers(a) ==> !st.ptr.Covers(a)
  {
    hide Disjoint, At;
    FreshBytes(st.blocks, b);
    forall a: nat | b.Covers(a) ensures !st.ptr.Covers(a) {
      if st.ptr.Covers(a) { HoldsAt(st.blocks, st.ptr.addr, st.ptr.End(), Conv, true, a); }
    }
  }

  // ---- add that has to grow the table ----

  /** Writing a record into an unused slot adds its bytes, without merging. */
  lemma PutPaints(t: Table, b: RAMBlock)
    requires Disjoint(t) && Fresh(t, b) && b.Valid() && Count(t) < |t|
    ensures Painted(t, b, Put(t, b))
  {
    SlotExists(t);
    var k := FirstInvalid(t, 0);
    var t' := Put(t, b);
    forall i, j | 0 <= i < |t'| && 0 <= j < |t'| && i != j ensures Apart(t'[i], t'[j]) {
      assert Apart(t[i], t[j]) && Apart(t[i], b) && Apart(t[j], b);
    }
    forall i, a: nat | In(t, i, a) ensures exists j :: In(t', j, a) && t'[j].SameKind(t[i]) {
      assert In(t', i, a);
    }
    forall a: nat | b.Covers(a) ensures exists j :: In(t', j, a) && t'[j].SameKind(b) {
      assert In(t', k, a);
    }
    forall j, a: nat | In(t', j, a) ensures b.Covers(a) || exists i :: In(t, i, a) {
      assert In(t, j, a) || b.Covers(a);
    }
    PaintedBytes(t, b, t');
    forall i | 0 <= i < |t| && t[i].Valid() ensures Holds(t', t[i].addr, t[i].End(), t[i].ty, t[i].used) {
      assert Houses(t'[i], t[i].addr, t[i].End(), t[i].ty, t[i].used);
    }
    assert Houses(t'[k], b.addr, b.End(), b.ty, b.used);
  }

  lemma PutCoalesced(t: Table, b: RAMBlock)
    requires Disjoint(t) && Coalesced(t) && Fresh(t, b) && b.Valid() && Count(t) < |t|
    ensures Coalesced(Put(t, b)) <==> Isolated(t, b)
  {
    SlotExists(t);
    var k := FirstInvalid(t, 0);
    var t' := Put(t, b);
    if Isolated(t, b) {
      forall i, j | 0 <= i < |t'| && 0 <= j < |t'| ensures t'[i].IsMergable(t'[j]) != -1 {
        assert t[i].IsMergable(t[j]) != -1;
        assert b.IsMergable(t[j]) != -1 && b.IsMergable(t[i]) != 1;
      }
    } else {
      var l, r := MergeBefore(t, b), MergeAfter(t, b);
      if l >= 0 {
        assert t'[l].IsMergable(t'[k]) == -1;
      } else {
        assert t'[k].IsMergable(t'[r]) == -1;
      }
    }
  }

  /** Whether `b` would merge can be read off the bytes next to it. */
  lemma IsolatedBytes(t: Table, b: RAMBlock)
    requires Disjoint(t) && Fresh(t, b) && b.Valid()
    ensures Isolated(t, b) <==>
              (b.addr == 0 || At(t, b.addr - 1) != Ram(b.ty, b.used)) && At(t, b.End()) != Ram(b.ty, b.used)
  {
    var l, r := MergeBefore(t, b), MergeAfter(t, b);
    if l >= 0 { AtIn(t, l, b.addr - 1); }
    if r >= 0 { AtIn(t, r, b.End()); }
    if b.addr > 0 && At(t, b.addr - 1) == Ram(b.ty, b.used) {
      var i := AtWitness(t, b.addr - 1);
      assert Apart(t[i], b);
      assert b.IsMergable(t[i]) == 1;
    }
    if At(t, b.End()) == Ram(b.ty, b.used) {
      var i := AtWitness(t, b.End());
      assert Apart(t[i], b);
      assert b.IsMergable(t[i]) == -1;
    }
  }

  predicate Adjacent(b: RAMBlock, p: OwnedPtr) { p.End() == b.addr || b.End() == p.addr }

  /** The record touches memory that the growing table leaves or takes, and is of the
      kind that memory has afterwards: `add` decided not to merge too early. */
  predicate StaleMerge(b: RAMBlock, left: OwnedPtr, taken: OwnedPtr) {
    || (b.ty == Conv && !b.used && Adjacent(b, left))
    || (b.ty == Conv && b.used && Adjacent(b, taken))
  }

  lemma ExpandedFresh(st: AllocState, b: RAMBlock, e: AllocState)
    requires Pending(st, b) && Hosted(st)
    requires Moved(st, e) && e.ptr.Clear(Range(b)) && Sound(e)
    ensures Fresh(e.blocks, b)
  {
    hide Disjoint, Coalesced, At, Sound, Layout;
    FreshStorage(st, b);
    FreshBytes(st.blocks, b);
    FreshBytes(e.blocks, b);
    assert forall a: nat :: !INVALID.Covers(a);
  }

  /** Growing while the record of a block is pending keeps the table sound; it stays
      coalesced exactly when the record does not touch the moved table storage. */
  lemma AddGrowSound(st: AllocState, b: RAMBlock)
    requires Pending(st, b) && Hosted(st) && Grows(st.blocks, b) && AddF(st, b).Some?
    ensures NewStorage(st, Range(b)).Some?
    ensures AddF(st, b).value.ptr == NewStorage(st, Range(b)).value
    ensures Sound(AddF(st, b).value) && Changed(st, b, AddF(st, b).value)
    ensures Coalesced(st.blocks) ==>
              (Coalesced(AddF(st, b).value.blocks) <==> !StaleMerge(b, st.ptr, NewStorage(st, Range(b)).value))
    ensures |AddF(st, b).value.blocks| == Grown(|st.blocks|)
    ensures -8 <= Count(AddF(st, b).value.blocks) - Count(st.blocks) <= 6
  {
    hide Count, At, Disjoint, Coalesced, Put, SizeAlign, Aligned, ExpandF, NewStorage, Fresh, Isolated;
    ExpandMoves(st, Range(b));
    var e := ExpandF(st, Grown(|st.blocks|), Range(b)).value;
    ExpandedFresh(st, b, e);
    PutPaints(e.blocks, b);
    var st' := AddF(st, b).value;
    assert |e.blocks| == |st'.blocks|;
    HoldsStep(e.blocks, b, st'.blocks, e.ptr.addr, e.ptr.End(), Conv, true);
    LayoutOnly(e, st'.blocks);
    FreshStorage(st, b);
    assert forall a: nat :: !INVALID.Covers(a);
    PutCount(e.blocks, b);
    if Coalesced(st.blocks) {
      PutCoalesced(e.blocks, b);
      StaleBytes(st, b, e);
    }
  }

  lemma PutCount(t: Table, b: RAMBlock)
    requires b.Valid() && Count(t) < |t|
    ensures Count(Put(t, b)) == Count(t) + 1
  {
    SlotExists(t);
    CountUpdate(t, FirstInvalid(t, 0), b);
  }

  lemma Border(p: OwnedPtr, b: RAMBlock)
    requires p.Clear(Range(b)) && p.size > 0 && b.Valid()
    ensures (b.addr > 0 && p.Covers(b.addr - 1)) <==> p.End() == b.addr
    ensures p.Covers(b.End()) <==> b.End() == p.addr
  {}

  lemma StaleSide(st: AllocState, e: AllocState, x: nat, kind: Status)
    requires Moved(st, e) && e.ptr.Clear(st.ptr) && At(st.blocks, x) != kind
    ensures At(e.blocks, x) == kind <==>
              || (e.ptr.Covers(x) && kind == Ram(Conv, true))
              || (st.ptr.Covers(x) && kind == Ram(Conv, false))
  {
    hide At;
  }

  lemma StaleBytes(st: AllocState, b: RAMBlock, e: AllocState)
    requires Pending(st, b) && Hosted(st) && Isolated(st.blocks, b)
    requires Moved(st, e) && e.ptr.Clear(Range(b)) && e.ptr.Clear(st.ptr) && Sound(e) && Fresh(e.blocks, b)
    ensures Isolated(e.blocks, b) <==> !StaleMerge(b, st.ptr, e.ptr)
  {
    hide At, Disjoint, Fresh, Isolated, Sound, Coalesced, Changed, Sparse, Layout;
    var kind := Ram(b.ty, b.used);
    SoundDisjoint(e);
    IsolatedBytes(st.blocks, b);
    IsolatedBytes(e.blocks, b);
    StorageSizes(st, e);
    StorageClear(st, b);
    Border(st.ptr, b);
    Border(e.ptr, b);
    StaleSide(st, e, b.End(), kind);
    if b.addr > 0 { StaleSide(st, e, b.addr - 1, kind); }
  }

  lemma StorageClear(st: AllocState, b: RAMBlock)
    requires Disjoint(st.blocks) && Hosted(st) && Fresh(st.blocks, b) && b.Valid() && st.ptr.size > 0
    ensures st.ptr.Clear(Range(b))
  {
    FreshStorage(st, b);
    var a := if st.ptr.addr < b.addr then b.addr else st.ptr.addr;
    assert b.Covers(a) ==> !st.ptr.Covers(a);
  }

  lemma SoundDisjoint(e: AllocState)
    requires Sound(e)
    ensures Disjoint(e.blocks)
  {}

  lemma StorageSizes(st: AllocState, e: AllocState)
    requires Layout(st) && Sound(e)
    ensures st.ptr.size > 0 && e.ptr.size > 0
  {
    TableBytesPositive(|st.blocks|, st.page);
    TableBytesPositive(|e.blocks|, e.page);
  }

  /** Growing while the record that carries the table storage itself is pending frees
      that storage and then adds the record over it: two records overlap. */
  lemma AddGrowBroken(st: AllocState, b: RAMBlock)
    requires Pending(st, b) && !Hosted(st) && Grows(st.blocks, b) && AddF(st, b).Some?
    ensures !Disjoint(AddF(st, b).value.blocks)
    ensures |AddF(st, b).value.blocks| == Grown(|st.blocks|)
    ensures -8 <= Count(AddF(st, b).value.blocks) - Count(st.blocks) <= 6
  {
    hide Count, At, Disjoint, SizeAlign, Aligned, ExpandF, NewStorage, Isolated;
    assert Growable(st, Range(b)) by { CarriedGrowable(st, b); }
    ExpandMoves(st, Range(b));
    var e := ExpandF(st, Grown(|st.blocks|), Range(b)).value;
    var t := Put(e.blocks, b);
    var i :| 0 <= i < |e.blocks| && Houses(e.blocks[i], st.ptr.addr, st.ptr.End(), Conv, false);
    SlotExists(e.blocks);
    PutCount(e.blocks, b);
    var k := FirstInvalid(e.blocks, 0);
    assert t[i] == e.blocks[i] && t[k] == b;
    TableBytesPositive(|st.blocks|, st.page);
    OverlapBreaks(t, i, k);
  }

  lemma CarriedGrowable(st: AllocState, b: RAMBlock)
    requires Pending(st, b)
    ensures Growable(st, Range(b))
  {
    if !Hosted(st) {
      var s := RAMBlock(st.ptr.addr, st.ptr.size, Conv, false);
      forall i | 0 <= i < |st.blocks| ensures Apart(st.blocks[i], s) {
        assert Apart(st.blocks[i], b);
      }
    }
  }

  lemma OverlapBreaks(t: Table, i: nat, k: nat)
    requires i < |t| && k < |t| && i != k && !Apart(t[i], t[k])
    ensures !Disjoint(t)
  {}

  // ---- free, first step: the record to the left of the range ----

  function AfterLeft(t: Table, p: OwnedPtr): Table {
    Insert(Carve(t, p.addr, p.End()), LeftPart(t, p.addr, p.End()))
  }

  lemma LeftNoBridge(t: Table, lo: nat, hi: nat)
    requires Disjoint(t) && lo <= hi
    ensures !Bridges(Carve(t, lo, hi), LeftPart(t, lo, hi))
    ensures LeftPart(t, lo, hi).Valid() || RightPart(t, lo, hi).Valid() ==> Count(Carve(t, lo, hi)) < |t|
  {
    hide Disjoint, At, Count, Coalesced;
    var c, b := Carve(t, lo, hi), LeftPart(t, lo, hi);
    var k, j := LastCut(t, lo, hi, true, |t|), LastCut(t, lo, hi, false, |t|);
    CountFull(c);
    if k >= 0 {
      assert In(t, k, lo) && !c[k].Valid();
      CarveAt(t, lo, hi, k, lo);
      if MergeAfter(c, b) >= 0 { NoRecordAt(c, MergeAfter(c, b), lo); }
    }
    if j >= 0 { assert !c[j].Valid(); }
  }

  lemma LeftPaints(t: Table, p: OwnedPtr)
    requires Disjoint(t)
    ensures var c, l, r := Carve(t, p.addr, p.End()), LeftPart(t, p.addr, p.End()), RightPart(t, p.addr, p.End());
            && !Resizes(c, l) && Painted(c, l, AfterLeft(t, p))
            && Fresh(AfterLeft(t, p), r) && Fresh(AfterLeft(t, p), RAMBlock(p.addr, p.size, Conv, false))
            && (Coalesced(t) ==> Coalesced(AfterLeft(t, p)))
  {
    hide Disjoint, At, Count, Coalesced, Carve, LeftPart, RightPart, Insert, Isolated, Bridges;
    var lo, hi := p.addr, p.End();
    var c, l, r := Carve(t, lo, hi), LeftPart(t, lo, hi), RightPart(t, lo, hi);
    LeftNoBridge(t, lo, hi);
    PartsFresh(t, lo, hi, Conv, false);
    CarveDisjoint(t, lo, hi);
    assert Room(c, l) by { IsolatedValid(c, l); }
    IsolatedValid(c, l);
    InsertPaints(c, l);
    PaintedFresh(c, l, AfterLeft(t, p), r);
    PaintedFresh(c, l, AfterLeft(t, p), RAMBlock(lo, hi - lo, Conv, false));
    if Coalesced(t) { InsertCoalesced(c, l); }
  }

  lemma IsolatedValid(t: Table, b: RAMBlock)
    ensures Isolated(t, b) ==> b.Valid()
  {}

  /** The byte map while only the left part has been put back. */
  lemma LeftBytes(t: Table, p: OwnedPtr, a: nat)
    requires Disjoint(t)
    ensures p.Covers(a) ==> At(AfterLeft(t, p), a) == Hole
    ensures RightPart(t, p.addr, p.End()).Covers(a) ==>
              At(AfterLeft(t, p), a) == Hole
                  && At(t, a) == Ram(RightPart(t, p.addr, p.End()).ty, RightPart(t, p.addr, p.End()).used)
    ensures !p.Covers(a) && !RightPart(t, p.addr, p.End()).Covers(a) ==> At(AfterLeft(t, p), a) == At(t, a)
  {
    hide Disjoint, At, Carve, Insert, AfterLeft, Resizes;
    LeftPaints(t, p);
    CarveBytes(t, p.addr, p.End(), a);
  }

  /** The table storage is in a record again, or in the right part still to come. */
  lemma LeftHosts(st: AllocState, p: OwnedPtr)
    requires Disjoint(st.blocks) && Hosted(st) && st.ptr.size > 0 && p.Clear(st.ptr)
    ensures Hosted(st.(blocks := AfterLeft(st.blocks, p)))
            <==> !Carries(RightPart(st.blocks, p.addr, p.End()), st.ptr)
  {
    hide Disjoint, AfterLeft, RightPart, Holds, Houses;
    if Carries(RightPart(st.blocks, p.addr, p.End()), st.ptr) {
      LeftUnhosted(st, p);
    } else {
      LeftHosted(st, p);
    }
  }

  lemma LeftUnhosted(st: AllocState, p: OwnedPtr)
    requires Disjoint(st.blocks) && st.ptr.size > 0 && Carries(RightPart(st.blocks, p.addr, p.End()), st.ptr)
    ensures !Hosted(st.(blocks := AfterLeft(st.blocks, p)))
  {
    hide Disjoint, At, AfterLeft, RightPart, Holds;
    var t, s, e := st.blocks, st.ptr.addr, st.ptr.End();
    LeftBytes(t, p, s);
    if Holds(AfterLeft(t, p), s, e, Conv, true) {
      hide Houses;
      assert Disjoint(AfterLeft(t, p)) by { LeftPaints(t, p); }
      HoldsAt(AfterLeft(t, p), s, e, Conv, true, s);
    }
  }

  lemma LeftHosted(st: AllocState, p: OwnedPtr)
    requires Disjoint(st.blocks) && Hosted(st) && st.ptr.size > 0 && p.Clear(st.ptr)
    requires !Carries(RightPart(st.blocks, p.addr, p.End()), st.ptr)
    ensures Hosted(st.(blocks := AfterLeft(st.blocks, p)))
  {
    hide Disjoint, At, AfterLeft, LeftPart, RightPart, Insert, Resizes;
    var t, lo, hi, s, e := st.blocks, p.addr, p.End(), st.ptr.addr, st.ptr.End();
    var i :| 0 <= i < |t| && Houses(t[i], s, e, Conv, true);
    PartsCover(t, lo, hi, i, s);
    PartsCover(t, lo, hi, i, e - 1);
    LeftPaints(t, p);
    if !t[i].Overlaps(lo, hi) {
      var c := Carve(t, lo, hi);
      assert Houses(c[i], s, e, Conv, true);
      hide Carve;
      HoldsStep(c, LeftPart(t, lo, hi), AfterLeft(t, p), s, e, Conv, true);
    } else {
      hide Carve;
      HoldsPart(AfterLeft(t, p), LeftPart(t, lo, hi), s, e);
    }
  }

  /** The right part does not close a gap either, unless the range is empty. */
  lemma RightNoBridge(t: Table, p: OwnedPtr)
    requires Disjoint(t) && (p.size > 0 || Coalesced(t))
    ensures !Bridges(AfterLeft(t, p), RightPart(t, p.addr, p.End()))
  {
    hide Disjoint, At, AfterLeft, Coalesced, RightPart, MergeBefore, MergeAfter;
    var t1, r := AfterLeft(t, p), RightPart(t, p.addr, p.End());
    if r.Valid() {
      PartEnds(t, p.addr, p.End());
      if p.size > 0 {
        LeftBytes(t, p, p.End() - 1);
        NoneBefore(t1, r);
      } else {
        NothingBehind(t, p);
      }
    }
  }

  /** The record that reaches out to the right, and the part of it that is saved. */
  lemma RightRecord(t: Table, p: OwnedPtr) returns (i: nat)
    requires RightPart(t, p.addr, p.End()).Valid()
    ensures i < |t| && t[i].Overlaps(p.addr, p.End()) && p.End() < t[i].End()
    ensures RightPart(t, p.addr, p.End()) == RAMBlock(p.End(), t[i].End() - p.End(), t[i].ty, t[i].used)
  {
    i := LastCut(t, p.addr, p.End(), false, |t|);
  }

  /** In a coalesced table nothing of its kind follows the right part. */
  lemma NothingBehind(t: Table, p: OwnedPtr)
    requires Disjoint(t) && Coalesced(t) && RightPart(t, p.addr, p.End()).Valid()
    ensures MergeAfter(AfterLeft(t, p), RightPart(t, p.addr, p.End())) < 0
  {
    hide Disjoint, At, AfterLeft, Coalesced, RightPart;
    var t1, r := AfterLeft(t, p), RightPart(t, p.addr, p.End());
    if MergeAfter(t1, r) >= 0 {
      var k := MergeAfter(t1, r);
      var i := RightRecord(t, p);
      hide MergeAfter;
      LeftBytes(t, p, r.End());
      LeftApart(t, p);
      AtIn(t1, k, r.End());
      var j := AtWitness(t, r.End());
      NotNext(t, i, j);
    }
  }

  lemma LeftApart(t: Table, p: OwnedPtr)
    requires Disjoint(t)
    ensures Disjoint(AfterLeft(t, p)) && Fresh(AfterLeft(t, p), RightPart(t, p.addr, p.End()))
  {
    hide AfterLeft, RightPart, LeftPart, Carve, Fresh, At;
    LeftPaints(t, p);
  }

  lemma NotNext(t: Table, i: nat, j: nat)
    requires Disjoint(t) && Coalesced(t) && i < |t| && j < |t| && t[i].Valid() && t[i].SameKind(t[j])
    ensures !t[j].Covers(t[i].End())
  {
    assert i == j || Apart(t[i], t[j]);
    assert t[i].IsMergable(t[j]) != -1;
  }

  // ---- free, second step: the record to the right of the range ----

  function LeftBack(st: AllocState, p: OwnedPtr): AllocState {
    st.(blocks := AfterLeft(st.blocks, p))
  }

  function Right(st: AllocState, p: OwnedPtr): RAMBlock {
    RightPart(st.blocks, p.addr, p.End())
  }

  function Middle(p: OwnedPtr): RAMBlock { RAMBlock(p.addr, p.size, Conv, false) }

  /** Putting the first record back never resizes; so `free` is two more `add`s. */
  lemma FreeSteps(st: AllocState, p: OwnedPtr)
    requires Disjoint(st.blocks)
    ensures FreeF(st, p) ==
              var s2 := AddF(LeftBack(st, p), Right(st, p));
              if s2.None? then None else AddF(s2.value, Middle(p))
  {
    hide Disjoint, Insert, Carve, LeftPart, RightPart, ExpandF, ShrinkF, Grows, Sparse, At, Painted;
    LeftPaints(st.blocks, p);
  }

  /** The range may be freed: it does not meet the table, and it is not empty unless
      the table is coalesced. */
  ghost predicate Freeable(st: AllocState, p: OwnedPtr) {
    Sound(st) && p.Clear(st.ptr) && (p.size > 0 || Coalesced(st.blocks))
  }

  /** The table is full when the right part, which carries the table itself, is put
      back. */
  predicate Conflict(st: AllocState, p: OwnedPtr) {
    Grows(AfterLeft(st.blocks, p), Right(st, p)) && Carries(Right(st, p), st.ptr)
  }

  lemma LeftBackPending(st: AllocState, p: OwnedPtr)
    requires Freeable(st, p)
    ensures Layout(LeftBack(st, p)) && Disjoint(LeftBack(st, p).blocks)
    ensures Right(st, p).Valid() ==> Pending(LeftBack(st, p), Right(st, p))
    ensures !Right(st, p).Valid() ==> Sound(LeftBack(st, p))
    ensures Hosted(LeftBack(st, p)) <==> !Carries(Right(st, p), st.ptr)
    ensures !Sparse(LeftBack(st, p).blocks, Right(st, p))
  {
    hide Disjoint, Insert, Carve, LeftPart, RightPart, At, Coalesced, AfterLeft, Grows;
    LeftPaints(st.blocks, p);
    CarveLength(st.blocks, p);
    LayoutOnly(st, AfterLeft(st.blocks, p));
    TableBytesPositive(|st.blocks|, st.page);
    LeftHosts(st, p);
    RightNoBridge(st.blocks, p);
  }

  lemma CarveLength(t: Table, p: OwnedPtr)
    ensures |AfterLeft(t, p)| == |t|
  {}

  lemma AddInvalid(st: AllocState, b: RAMBlock)
    requires !b.Valid()
    ensures AddF(st, b) == Some(st)
  {}

  lemma RightSound(st: AllocState, p: OwnedPtr, s2: AllocState)
    requires Freeable(st, p) && !Conflict(st, p) && AddF(LeftBack(st, p), Right(st, p)) == Some(s2)
    ensures Sound(s2) && Changed(LeftBack(st, p), Right(st, p), s2)
    ensures forall a: nat :: st.ptr.Covers(a) && Right(st, p).Covers(a) ==> s2.ptr.Covers(a)
  {
    hide Disjoint, At, Coalesced, Layout, AfterLeft, RightPart, Grows, Sparse, Sound, Freeable;
    var s1, r := LeftBack(st, p), Right(st, p);
    LeftBackPending(st, p);
    if !r.Valid() {
      AddInvalid(s1, r);
      NothingAdded(s1, r);
    } else {
      hide Changed, AddF;
      if Grows(s1.blocks, r) {
        AddGrowSound(s1, r);
        FreshStorage(s1, r);
      } else {
        AddQuietSound(s1, r);
        assert s2 == AddQuiet(s1, r) by { QuietIs(s1, r); }
        if Hosted(s1) {
          FreshStorage(s1, r);
        } else {
          CarriedStays(s1, r, s2);
        }
      }
    }
  }

  lemma QuietIs(st: AllocState, b: RAMBlock)
    requires !Grows(st.blocks, b)
    ensures AddF(st, b) == Some(AddQuiet(st, b))
  {
    hide Grows, AddQuiet;
  }

  lemma NothingAdded(st: AllocState, b: RAMBlock)
    requires Sound(st) && !b.Valid()
    ensures Changed(st, b, st) && forall a: nat :: !b.Covers(a)
  {
    hide At, Disjoint, Layout;
    MovedRefl(st);
    assert forall a: nat :: !b.Covers(a) && !INVALID.Covers(a);
  }

  /** Adding the record that carries the table back, without a resize, keeps it in place. */
  lemma CarriedStays(st: AllocState, b: RAMBlock, st': AllocState)
    requires Pending(st, b) && !Hosted(st) && st' == AddQuiet(st, b)
    ensures st'.ptr == st.ptr
  {
    hide Insert, Sparse, Layout, Disjoint;
  }

  lemma MiddleFresh(st: AllocState, p: OwnedPtr, s2: AllocState)
    requires Freeable(st, p) && Disjoint(s2.blocks) && Changed(LeftBack(st, p), Right(st, p), s2)
    ensures Fresh(s2.blocks, Middle(p))
  {
    hide Disjoint, At, Coalesced, Layout, AfterLeft, RightPart;
    forall a: nat | Middle(p).Covers(a) ensures At(s2.blocks, a) == Hole {
      LeftBytes(st.blocks, p, a);
      assert !Right(st, p).Covers(a) by { RightStart(st.blocks, p, a); }
      assert !st.ptr.Covers(a);
    }
    FreshBytes(s2.blocks, Middle(p));
  }

  lemma RightStart(t: Table, p: OwnedPtr, a: nat)
    ensures RightPart(t, p.addr, p.End()).Covers(a) ==> p.End() <= a
  {}

  // ---- free, third step: the range itself ----

  lemma FreeChain(st: AllocState, p: OwnedPtr, s2: AllocState, s3: AllocState)
    requires Freeable(st, p)
    requires Changed(LeftBack(st, p), Right(st, p), s2) && Changed(s2, Middle(p), s3)
    requires forall a: nat :: st.ptr.Covers(a) && Right(st, p).Covers(a) ==> s2.ptr.Covers(a)
    ensures Changed(st, Middle(p), s3)
  {
    hide Disjoint, At, Coalesced, Layout, AfterLeft, RightPart;
    forall a: nat
      ensures At(s3.blocks, a) ==
                if s3.ptr.Covers(a) then Ram(Conv, true)
                else if Middle(p).Covers(a) then Ram(Conv, false)
                else if st.ptr.Covers(a) then Ram(Conv, false)
                else At(st.blocks, a)
      ensures s3.ptr.Covers(a) && !st.ptr.Covers(a) ==> At(st.blocks, a) == Ram(Conv, false)
    {
      LeftBytes(st.blocks, p, a);
      RightStart(st.blocks, p, a);
      var x, y := At(s2.blocks, a), At(LeftBack(st, p).blocks, a);
    }
  }

  /** Unless it meets the conflict, `free` keeps the table sound and turns exactly its
      range into free conventional memory, table storage aside. */
  lemma FreeBytes(st: AllocState, p: OwnedPtr, st': AllocState)
    requires Freeable(st, p) && !Conflict(st, p) && FreeF(st, p) == Some(st')
    ensures Sound(st') && Changed(st, Middle(p), st')
  {
    hide Disjoint, At, Coalesced, Layout, AfterLeft, RightPart, Grows, Sparse, FreeF, Changed, AddF, LeftBack, Hosted,
         Conflict;
    FreeSteps(st, p);
    var s2 := AddF(LeftBack(st, p), Right(st, p)).value;
    RightSound(st, p, s2);
    MiddleFresh(st, p, s2);
    MiddleSound(s2, p, st');
    FreeChain(st, p, s2, st');
  }

  lemma MiddleSound(s2: AllocState, p: OwnedPtr, s3: AllocState)
    requires Sound(s2) && Fresh(s2.blocks, Middle(p)) && AddF(s2, Middle(p)) == Some(s3)
    ensures Sound(s3) && Changed(s2, Middle(p), s3)
    ensures Coalesced(s2.blocks) && !Grows(s2.blocks, Middle(p)) ==> Coalesced(s3.blocks)
    ensures Coalesced(s2.blocks) && Grows(s2.blocks, Middle(p)) ==>
              && NewStorage(s2, p).Some?
              && (Coalesced(s3.blocks) <==> !StaleMerge(Middle(p), s2.ptr, NewStorage(s2, p).value))
  {
    hide Disjoint, At, Coalesced, Layout, Grows, Fresh;
    if !Middle(p).Valid() {
      AddInvalid(s2, Middle(p));
      NothingAdded(s2, Middle(p));
      GrowsValid(s2.blocks, Middle(p));
    } else {
      hide Changed, AddF, NewStorage, StaleMerge, AddQuiet;
      if Grows(s2.blocks, Middle(p)) {
        AddGrowSound(s2, Middle(p));
      } else {
        AddQuietSound(s2, Middle(p));
        QuietIs(s2, Middle(p));
      }
    }
  }

  lemma GrowsValid(t: Table, b: RAMBlock)
    ensures Grows(t, b) ==> b.Valid()
  {}

  // ---- Damage, and exactly when it happens ----

  /** Inserting a record never repairs an overlap. */
  lemma InsertKeepsOverlap(t: Table, b: RAMBlock)
    requires !Disjoint(t)
    ensures !Disjoint(Insert(t, b))
  {
    var i, j :| 0 <= i < |t| && 0 <= j < |t| && i != j && !Apart(t[i], t[j]);
    if b.Valid() {
      var l, r := MergeBefore(t, b), MergeAfter(t, b);
      var t' := Insert(t, b);
      var i' := if i == r && l >= 0 then l else i;
      var j' := if j == r && l >= 0 then l else j;
      assert !Apart(t'[i'], t'[j']);
    }
  }

  /** Inserting a record never merges two other records. */
  lemma InsertKeepsGap(t: Table, b: RAMBlock)
    requires Disjoint(t) && Fresh(t, b) && !Coalesced(t)
    ensures !Coalesced(Insert(t, b))
  {
    var i, j :| 0 <= i < |t| && 0 <= j < |t| && t[i].IsMergable(t[j]) == -1;
    assert Apart(t[i], b) && Apart(t[j], b);
    if b.Valid() {
      var l, r := MergeBefore(t, b), MergeAfter(t, b);
      var t' := Insert(t, b);
      var i' := if i == r && l >= 0 then l else i;
      assert t'[i'].IsMergable(t'[j]) == -1;
    }
  }

  /** A table that has just doubled is not resized by the next record. */
  lemma QuietAfterGrowth(s2: AllocState, n: nat, b: RAMBlock)
    requires n >= BASE_RB_SIZE && |s2.blocks| == Grown(n) && -8 <= Count(s2.blocks) - n <= 6
    ensures AddF(s2, b) == Some(s2.(blocks := Insert(s2.blocks, b))) && !Resizes(s2.blocks, b)
  {
    hide Count, Insert, ExpandF, ShrinkF;
    QuietCount(s2.blocks, b);
  }

  /** In the conflict, the freed table has two records that claim the same bytes. */
  lemma FreeBreaks(st: AllocState, p: OwnedPtr, st': AllocState)
    requires Freeable(st, p) && Conflict(st, p) && FreeF(st, p) == Some(st')
    ensures !Disjoint(st'.blocks)
  {
    hide Disjoint, At, Coalesced, AfterLeft, RightPart, Sparse, FreeF, AddF, Insert, Count, Isolated;
    var s1, r := LeftBack(st, p), Right(st, p);
    FreeSteps(st, p);
    LeftBackPending(st, p);
    GrowsValid(s1.blocks, r);
    CarveLength(st.blocks, p);
    AddGrowBroken(s1, r);
    var s2 := AddF(s1, r).value;
    QuietAfterGrowth(s2, |st.blocks|, Middle(p));
    InsertKeepsOverlap(s2.blocks, Middle(p));
  }

  /** `free` keeps the records disjoint if and only if it avoids the conflict. */
  lemma FreeDisjointIff(st: AllocState, p: OwnedPtr, st': AllocState)
    requires Freeable(st, p) && FreeF(st, p) == Some(st')
    ensures Disjoint(st'.blocks) <==> !Conflict(st, p)
  {
    hide *;
    if Conflict(st, p) {
      FreeBreaks(st, p, st');
    } else {
      FreeBytes(st, p, st');
      SoundDisjoint(st');
    }
  }

  /** A record was added beside the moving table storage without merging. */
  ghost predicate Stale(st: AllocState, p: OwnedPtr) {
    var t, r := AfterLeft(st.blocks, p), Right(st, p);
    if Grows(t, r) then
      && NewStorage(LeftBack(st, p), Range(r)).Some?
      && StaleMerge(r, st.ptr, NewStorage(LeftBack(st, p), Range(r)).value)
    else
      var cut := st.(blocks := CutOut(st.blocks, p.addr, p.End()));
      && Grows(cut.blocks, Middle(p))
      && NewStorage(cut, p).Some?
      && StaleMerge(Middle(p), st.ptr, NewStorage(cut, p).value)
  }

  lemma RightQuiet(st: AllocState, p: OwnedPtr)
    requires Freeable(st, p) && !Grows(AfterLeft(st.blocks, p), Right(st, p))
    ensures AddF(LeftBack(st, p), Right(st, p)) == Some(st.(blocks := CutOut(st.blocks, p.addr, p.End())))
    ensures Coalesced(st.blocks) ==> Coalesced(CutOut(st.blocks, p.addr, p.End()))
  {
    hide Disjoint, At, Coalesced, Grows, Sparse, Insert, Carve, LeftPart, RightPart, Layout, Hosted;
    LeftBackPending(st, p);
    if Coalesced(st.blocks) {
      LeftPaints(st.blocks, p);
      var t, r := AfterLeft(st.blocks, p), Right(st, p);
      if r.Valid() { RoomForQuiet(t, r); } else { RoomInvalid(t, r); }
      InsertCoalesced(t, r);
    }
  }

  lemma RoomForQuiet(t: Table, b: RAMBlock)
    requires !Grows(t, b)
    ensures Room(t, b)
  {}

  lemma RoomInvalid(t: Table, b: RAMBlock)
    requires !b.Valid()
    ensures Room(t, b)
  {}

  /** In a coalesced table, `free` keeps full coalescing if and only if no record is
      added next to the moving table storage. */
  lemma FreeCoalescedIff(st: AllocState, p: OwnedPtr, st': AllocState)
    requires Inv(st) && p.Clear(st.ptr) && !Conflict(st, p) && FreeF(st, p) == Some(st')
    ensures Coalesced(st'.blocks) <==> !Stale(st, p)
  {
    hide Disjoint, At, Coalesced, AfterLeft, RightPart, Sparse, FreeF, AddF, Insert, Count, Isolated, Layout, CutOut,
         NewStorage, StaleMerge, Changed;
    var s1, r := LeftBack(st, p), Right(st, p);
    FreeSteps(st, p);
    LeftBackPending(st, p);
    var s2 := AddF(s1, r).value;
    RightSound(st, p, s2);
    MiddleFresh(st, p, s2);
    MiddleSound(s2, p, st');
    if Grows(s1.blocks, r) {
      GrowsValid(s1.blocks, r);
      CarveLength(st.blocks, p);
      AddGrowSound(s1, r);
      CoalescedLeft(st, p);
      LayoutRecords(st);
      QuietAfterGrowth(s2, |st.blocks|, Middle(p));
      if !Coalesced(s2.blocks) { InsertKeepsGap(s2.blocks, Middle(p)); }
    } else {
      RightQuiet(st, p);
      if Grows(s2.blocks, Middle(p)) { GrowNeeds(s2, p); }
    }
  }

  lemma LayoutRecords(st: AllocState)
    requires Layout(st)
    ensures |st.blocks| >= BASE_RB_SIZE
  {}

  lemma CoalescedLeft(st: AllocState, p: OwnedPtr)
    requires Inv(st)
    ensures Coalesced(LeftBack(st, p).blocks)
  {
    LeftPaints(st.blocks, p);
  }

  lemma GrowNeeds(s2: AllocState, p: OwnedPtr)
    requires Sound(s2) && AddF(s2, Middle(p)).Some? && Grows(s2.blocks, Middle(p))
    ensures NewStorage(s2, p).Some?
  {
    hide Disjoint, Count, Isolated, NewStorage, ExpandF, SizeAlign, Layout;
    ExpandMoves(s2, p);
  }

  /** With a slot to spare after cutting the range out, `free` cannot fail and keeps the
      whole invariant. */
  lemma FreeRoomy(st: AllocState, p: OwnedPtr)
    requires Inv(st) && p.Clear(st.ptr) && Roomy(st.blocks, p.addr, p.End())
    ensures FreeF(st, p).Some? && Inv(FreeF(st, p).value) && Changed(st, Middle(p), FreeF(st, p).value)
  {
    hide Disjoint, At, Coalesced, AfterLeft, RightPart, Sparse, FreeF, AddQuiet, Insert, Isolated, Layout, CutOut,
         Changed, Conflict;
    RoomyQuiet(st, p);
    FreeSteps(st, p);
    RightQuiet(st, p);
    FreeBytes(st, p, FreeF(st, p).value);
    var s2 := st.(blocks := CutOut(st.blocks, p.addr, p.End()));
    assert AddF(s2, Middle(p)) == FreeF(st, p);
    RightSound(st, p, s2);
    MiddleFresh(st, p, s2);
    MiddleSound(s2, p, FreeF(st, p).value);
  }

  lemma RoomyQuiet(st: AllocState, p: OwnedPtr)
    requires Disjoint(st.blocks) && Roomy(st.blocks, p.addr, p.End())
    ensures !Grows(AfterLeft(st.blocks, p), Right(st, p)) && !Conflict(st, p)
    ensures !Grows(CutOut(st.blocks, p.addr, p.End()), Middle(p))
  {
    hide Disjoint, At, Coalesced, RightPart, LeftPart, Carve, Insert, Isolated, Painted;
    var t1, t2, t3 := RepaintStages(st.blocks, p.addr, p.End(), Conv, false);
    GrowsValid(t1, Right(st, p));
    CutOutLength(st.blocks, p.addr, p.End());
    CarveLength(st.blocks, p);
  }
}
