/** What `expand` and `shrink` do to the byte map, and why a resize never triggers
    another one. */
module PhysResize {
  import opened Align
  import opened RamTable
  import opened Repainting
  import opened PhysSpec
  import opened Wrappers

  // ---- Tables with the same valid records ----

  ghost predicate Listed(t: Table, t': Table) {
    forall i :: 0 <= i < |t| && t[i].Valid() ==> t[i] in t'
  }

  /** The same valid records, possibly in other slots. */
  ghost predicate SameRecords(t: Table, t': Table) {
    Disjoint(t) && Disjoint(t') && Listed(t, t') && Listed(t', t)
  }

  lemma ListedIn(t: Table, t': Table, i: int, a: nat) returns (j: int)
    requires Listed(t, t') && In(t, i, a)
    ensures In(t', j, a) && t'[j] == t[i]
  {
    assert t[i].Valid();
    j :| 0 <= j < |t'| && t'[j] == t[i];
  }

  lemma SameRecordsAt(t: Table, t': Table, a: nat)
    requires SameRecords(t, t')
    ensures At(t', a) == At(t, a)
  {
    if At(t, a) != Hole {
      var i := AtWitness(t, a);
      var j := ListedIn(t, t', i, a);
      AtIn(t', j, a);
    } else if At(t', a) != Hole {
      var i := AtWitness(t', a);
      var j := ListedIn(t', t, i, a);
    }
  }

  lemma SameRecordsCoalesced(t: Table, t': Table)
    requires SameRecords(t, t') && Coalesced(t)
    ensures Coalesced(t')
  {
    forall i, j | 0 <= i < |t'| && 0 <= j < |t'| ensures t'[i].IsMergable(t'[j]) != -1 {
      if t'[i].Valid() && t'[j].Valid() {
        var k :| 0 <= k < |t| && t[k] == t'[i];
        var m :| 0 <= m < |t| && t[m] == t'[j];
        assert t[k].IsMergable(t[m]) != -1;
      }
    }
  }

  lemma SameRecordsHolds(t: Table, t': Table, lo: nat, hi: nat, ty: RAMType, used: bool)
    requires SameRecords(t, t') && Holds(t, lo, hi, ty, used)
    ensures Holds(t', lo, hi, ty, used)
  {
    var i :| 0 <= i < |t| && Houses(t[i], lo, hi, ty, used);
    var j :| 0 <= j < |t'| && t'[j] == t[i];
    assert Houses(t'[j], lo, hi, ty, used);
  }

  lemma PaddingKeeps(t: Table, n: nat)
    requires Disjoint(t)
    ensures SameRecords(t, t + Padding(n))
    ensures Count(t + Padding(n)) == Count(t)
  {
    var t' := t + Padding(n);
    assert t'[..|t|] == t;
    CountTail(t', |t|);
    forall i, j | 0 <= i < |t'| && 0 <= j < |t'| && i != j ensures Apart(t'[i], t'[j]) {
      assert i < |t| && j < |t| ==> Apart(t[i], t[j]);
    }
    forall i | 0 <= i < |t| ensures t[i] in t' {
      assert t'[i] == t[i];
    }
  }

  // ---- Where expand puts the new table ----

  /** The chosen region is page aligned, lies inside one free conventional record and
      does not meet the pending request, whichever of its placement cases is taken. */
  lemma PlacementSafe(t: Table, size: nat, align: nat, p: OwnedPtr)
    requires size > 0 && Placement(t, size, align, p).Some?
    ensures var r := Placement(t, size, align, p).value;
            && r.size == size && Aligned(r.addr, align)
            && Holds(t, r.addr, r.End(), Conv, false)
            && r.Clear(p)
  {
    var i := First(t, PlaceFilter(size, align, p));
    var r := Placement(t, size, align, p).value;
    AlignUpLeast(t[i].addr, align);
    AlignUpLeast(p.End(), align);
    assert PlaceFilter(size, align, p)(t[i]);
    assert Houses(t[i], r.addr, r.End(), Conv, false);
  }

  // ---- Allocating without resizing ----

  /** The first record that can host a range is the only one: the table is disjoint. */
  lemma HostIndex(t: Table, ty: RAMType, p: OwnedPtr) returns (i: nat)
    requires Disjoint(t) && p.size > 0 && Holds(t, p.addr, p.End(), ty, false)
    ensures i < |t| && i == First(t, HostFilter(ty, p))
    ensures t[i].Contains(p.addr, p.End()) && t[i].ty == ty && !t[i].used
  {
    i := First(t, HostFilter(ty, p));
    var k :| 0 <= k < |t| && Houses(t[k], p.addr, p.End(), ty, false);
    assert HostFilter(ty, p)(t[k]);
  }

  /** `alloc` succeeds on a free range inside one record of the right type, and its
      cut-and-insert steps are a repaint of that range. */
  lemma AllocHereRepaints(t: Table, args: AllocParams, p: OwnedPtr)
    requires Disjoint(t) && p.size > 0 && Holds(t, p.addr, p.End(), args.fromType, false)
    requires args.fromType != args.asType || args.used
    ensures AllocHere(t, args, p) == Some(Repaint(t, p.addr, p.End(), args.asType, args.used))
    ensures Split(t, args, p) == Some(CutOut(t, p.addr, p.End()))
    ensures Count(Carve(t, p.addr, p.End())) == Count(t) - 1
  {
    hide Carve, LeftPart, RightPart, Disjoint, Count, Insert, First;
    var i := HostIndex(t, args.fromType, p);
    CarveSingle(t, p.addr, p.End(), i);
    PartsSingle(t, p.addr, p.End(), i);
    var l, r := LeftPart(t, p.addr, p.End()), RightPart(t, p.addr, p.End());
    var c := Carve(t, p.addr, p.End());
    InsertAlike(c, Before(t[i], p), l);
    InsertAlike(Insert(c, l), After(t[i], p), r);
  }

  lemma InsertAlike(t: Table, b: RAMBlock, c: RAMBlock)
    requires b == c || (!b.Valid() && !c.Valid())
    ensures Insert(t, b) == Insert(t, c)
  {}

  // ---- expand ----

  /** The table storage before `expand`: inside a used record, or (only while a record
      that contains it is pending) outside every record. */
  ghost predicate StoragePlaced(st: AllocState, p: OwnedPtr) {
    || Hosted(st)
    || (Fresh(st.blocks, RAMBlock(st.ptr.addr, st.ptr.size, Conv, false))
        && p.addr <= st.ptr.addr && st.ptr.End() <= p.End())
  }

  ghost predicate Growable(st: AllocState, p: OwnedPtr) {
    Layout(st) && Disjoint(st.blocks) && StoragePlaced(st, p)
  }

  lemma RangesDisjoint(t: Table, lo: nat, hi: nat, lo': nat, hi': nat, ty: RAMType)
    requires Disjoint(t) && lo < hi && lo' < hi'
    requires Holds(t, lo, hi, Conv, true) && Holds(t, lo', hi', ty, false)
    ensures hi <= lo' || hi' <= lo
  {
    var i :| 0 <= i < |t| && Houses(t[i], lo, hi, Conv, true);
    var j :| 0 <= j < |t| && Houses(t[j], lo', hi', ty, false);
    assert Apart(t[i], t[j]);
  }

  lemma TableBytesPositive(n: nat, page: nat)
    requires BasePage(page)
    ensures TableBytes(n, page) >= 1 && TableBytes(n, page) >= n * RECORD_BYTES
    ensures SizeAlign(TableBytes(n, page), page) == TableBytes(n, page)
  {
    SizeAlignProps(n * RECORD_BYTES, page);
  }

  /** Old and new table storage do not meet, so the records can be copied. */
  lemma PlacementOffStorage(st: AllocState, p: OwnedPtr, n: nat)
    requires Growable(st, p)
    requires Placement(st.blocks, TableBytes(n, st.page), st.page, p).Some?
    ensures Placement(st.blocks, TableBytes(n, st.page), st.page, p).value.Clear(st.ptr)
  {
    TableBytesPositive(n, st.page);
    TableBytesPositive(|st.blocks|, st.page);
    PlacementSafe(st.blocks, TableBytes(n, st.page), st.page, p);
    var r := Placement(st.blocks, TableBytes(n, st.page), st.page, p).value;
    if Hosted(st) {
      RangesDisjoint(st.blocks, st.ptr.addr, st.ptr.End(), r.addr, r.End(), Conv);
    }
  }

  /** No insertion of a repaint would make `add` resize the table. */
  predicate QuietRepaint(t: Table, lo: nat, hi: nat, ty: RAMType, used: bool)
    requires lo <= hi
  {
    var c := Carve(t, lo, hi);
    var t1 := Insert(c, LeftPart(t, lo, hi));
    var t2 := Insert(t1, RightPart(t, lo, hi));
    && !Resizes(c, LeftPart(t, lo, hi))
    && !Resizes(t1, RightPart(t, lo, hi))
    && !Resizes(t2, RAMBlock(lo, hi - lo, ty, used))
  }

  /** A table that is neither nearly full nor nearly empty is not resized. */
  lemma QuietCount(t: Table, b: RAMBlock)
    requires |t| / 4 + 1 < Count(t) < |t|
    ensures !Resizes(t, b)
  {
    InsertCount(t, b);
  }

  lemma QuietByCount(t: Table, lo: nat, hi: nat, ty: RAMType, used: bool)
    requires Disjoint(t) && lo <= hi
    requires |t| / 4 + 3 < Count(Carve(t, lo, hi)) && Count(Carve(t, lo, hi)) + 2 < |t|
    ensures Roomy(t, lo, hi) && QuietRepaint(t, lo, hi, ty, used)
  {
    var t1, t2, t3 := RepaintStages(t, lo, hi, ty, used);
    QuietCount(Carve(t, lo, hi), LeftPart(t, lo, hi));
    QuietCount(t1, RightPart(t, lo, hi));
    QuietCount(t2, RAMBlock(lo, hi - lo, ty, used));
  }

  // ---- expand, first half: the grown table with the new storage allocated ----

  function NewStorage(st: AllocState, p: OwnedPtr): Option<OwnedPtr> {
    Placement(st.blocks, TableBytes(Grown(|st.blocks|), st.page), st.page, p)
  }

  function Padded(st: AllocState): Table {
    st.blocks + Padding(Grown(|st.blocks|) - |st.blocks|)
  }

  function Claimed(st: AllocState, r: OwnedPtr): Table {
    Repaint(Padded(st), r.addr, r.End(), Conv, true)
  }

  lemma PaddedReady(st: AllocState, p: OwnedPtr)
    requires Growable(st, p) && NewStorage(st, p).Some?
    ensures SameRecords(st.blocks, Padded(st)) && Count(Padded(st)) == Count(st.blocks)
    ensures |Padded(st)| == Grown(|st.blocks|)
    ensures Coalesced(st.blocks) ==> Coalesced(Padded(st))
    ensures Holds(Padded(st), NewStorage(st, p).value.addr, NewStorage(st, p).value.End(), Conv, false)
    ensures NewStorage(st, p).value.size == TableBytes(Grown(|st.blocks|), st.page) > 0
    ensures NewStorage(st, p).value.Clear(st.ptr) && NewStorage(st, p).value.Clear(p)
    ensures Aligned(NewStorage(st, p).value.addr, st.page)
  {
    hide Insert, Carve, LeftPart, RightPart, Disjoint, Coalesced, Count, At, SizeAlign, Placement, Aligned;
    var n := Grown(|st.blocks|);
    var r := NewStorage(st, p).value;
    TableBytesPositive(n, st.page);
    PlacementSafe(st.blocks, TableBytes(n, st.page), st.page, p);
    PlacementOffStorage(st, p, n);
    PaddingKeeps(st.blocks, n - |st.blocks|);
    SameRecordsHolds(st.blocks, Padded(st), r.addr, r.End(), Conv, false);
    if Coalesced(st.blocks) { SameRecordsCoalesced(st.blocks, Padded(st)); }
  }

  lemma ClaimRoom(st: AllocState, p: OwnedPtr)
    requires Growable(st, p) && NewStorage(st, p).Some?
    ensures var r := NewStorage(st, p).value;
            && AllocHere(Padded(st), NewParams(Grown(|st.blocks|) * RECORD_BYTES, st.page).Build(st.page), r)
                 == Some(Claimed(st, r))
            && Count(Carve(Padded(st), r.addr, r.End())) == Count(st.blocks) - 1
            && Roomy(Padded(st), r.addr, r.End())
  {
    hide Insert, Carve, LeftPart, RightPart, Disjoint, Coalesced, Count, At, SizeAlign, Placement, Aligned;
    PaddedReady(st, p);
    AllocHereRepaints(Padded(st), NewParams(Grown(|st.blocks|) * RECORD_BYTES, st.page).Build(st.page),
                      NewStorage(st, p).value);
  }

  lemma ClaimedBytes(st: AllocState, p: OwnedPtr, r: OwnedPtr)
    requires Growable(st, p) && NewStorage(st, p) == Some(r)
    ensures |Claimed(st, r)| == Grown(|st.blocks|) && Disjoint(Claimed(st, r))
    ensures Coalesced(st.blocks) ==> Coalesced(Claimed(st, r))
    ensures -4 <= Count(Claimed(st, r)) - Count(st.blocks) <= 2
    ensures Holds(Claimed(st, r), r.addr, r.End(), Conv, true)
    ensures forall a: nat :: At(Claimed(st, r), a) == if r.Covers(a) then Ram(Conv, true) else At(st.blocks, a)
  {
    hide Insert, Carve, LeftPart, RightPart, Disjoint, Coalesced, Count, At, SizeAlign, Placement, Aligned;
    PaddedReady(st, p);
    ClaimRoom(st, p);
    RepaintBytes(Padded(st), r.addr, r.End(), Conv, true);
    forall a: nat ensures At(Claimed(st, r), a) == if r.Covers(a) then Ram(Conv, true) else At(st.blocks, a) {
      SameRecordsAt(st.blocks, Padded(st), a);
    }
  }

  lemma ClaimedStorage(st: AllocState, p: OwnedPtr, r: OwnedPtr)
    requires Growable(st, p) && NewStorage(st, p) == Some(r)
    ensures st.ptr.size > 0
    ensures Hosted(st) ==> Holds(Claimed(st, r), st.ptr.addr, st.ptr.End(), Conv, true)
    ensures !Hosted(st) ==> Fresh(Claimed(st, r), RAMBlock(st.ptr.addr, st.ptr.size, Conv, false))
  {
    hide Insert, Carve, LeftPart, RightPart, Disjoint, Coalesced, Count, At, SizeAlign, Placement, Aligned;
    PaddedReady(st, p);
    ClaimRoom(st, p);
    TableBytesPositive(|st.blocks|, st.page);
    if Hosted(st) {
      SameRecordsHolds(st.blocks, Padded(st), st.ptr.addr, st.ptr.End(), Conv, true);
      RepaintHolds(Padded(st), r.addr, r.End(), Conv, true, st.ptr.addr, st.ptr.End(), Conv, true);
    } else {
      ClaimedBytes(st, p, r);
      FreshBytes(st.blocks, RAMBlock(st.ptr.addr, st.ptr.size, Conv, false));
      FreshBytes(Claimed(st, r), RAMBlock(st.ptr.addr, st.ptr.size, Conv, false));
    }
  }

  // ---- expand, second half: the old storage freed ----

  lemma ReleaseRoom(st: AllocState, p: OwnedPtr, r: OwnedPtr)
    requires Growable(st, p) && NewStorage(st, p) == Some(r)
    ensures Roomy(Claimed(st, r), st.ptr.addr, st.ptr.End())
    ensures Count(Claimed(st, r)) - 1 <= Count(Carve(Claimed(st, r), st.ptr.addr, st.ptr.End()))
    ensures Count(Carve(Claimed(st, r), st.ptr.addr, st.ptr.End())) <= Count(Claimed(st, r))
  {
    hide Insert, Carve, LeftPart, RightPart, Disjoint, Coalesced, Count, At, SizeAlign, Placement, Aligned;
    var t := Claimed(st, r);
    ClaimedBytes(st, p, r);
    ClaimedStorage(st, p, r);
    CarveCount(t, st.ptr.addr, st.ptr.End());
    if Hosted(st) {
      var i :| 0 <= i < |t| && Houses(t[i], st.ptr.addr, st.ptr.End(), Conv, true);
      CarveSingle(t, st.ptr.addr, st.ptr.End(), i);
    } else {
      CarveNothing(t, st.ptr.addr, st.ptr.End());
    }
  }

  lemma ExpandBytes(st: AllocState, p: OwnedPtr, r: OwnedPtr, t: Table)
    requires Growable(st, p) && NewStorage(st, p) == Some(r)
    requires t == FreeHere(Claimed(st, r), st.ptr)
    ensures |t| == Grown(|st.blocks|) && Disjoint(t) && (Coalesced(st.blocks) ==> Coalesced(t))
    ensures Holds(t, r.addr, r.End(), Conv, true) && Holds(t, st.ptr.addr, st.ptr.End(), Conv, false)
    ensures -8 <= Count(t) - Count(st.blocks) <= 5
    ensures Moved(st, AllocState(t, r, st.page))
  {
    hide Insert, Carve, LeftPart, RightPart, Disjoint, Coalesced, Count, At, SizeAlign, Placement, Aligned, Layout,
         Claimed, Repaint;
    ReleaseRoom(st, p, r);
    PaddedReady(st, p);
    ClaimedBytes(st, p, r);
    ClaimedStorage(st, p, r);
    RepaintBytes(Claimed(st, r), st.ptr.addr, st.ptr.End(), Conv, false);
    RepaintHolds(Claimed(st, r), st.ptr.addr, st.ptr.End(), Conv, false, r.addr, r.End(), Conv, true);
    forall a: nat ensures r.Covers(a) ==> At(st.blocks, a) == Ram(Conv, false) {
      if r.Covers(a) {
        HoldsAt(Padded(st), r.addr, r.End(), Conv, false, a);
        SameRecordsAt(st.blocks, Padded(st), a);
      }
    }
    assert forall a: nat :: !INVALID.Covers(a);
  }

  /** Growing the table moves its storage and changes nothing else: the new storage,
      which was free conventional memory clear of the request, becomes used, the old
      storage becomes free, and all records survive. The `unwrap` of the allocation
      inside `expand` cannot fail. */
  lemma ExpandMoves(st: AllocState, p: OwnedPtr)
    requires Growable(st, p)
    ensures ExpandF(st, Grown(|st.blocks|), p).None? <==> NewStorage(st, p).None?
    ensures ExpandF(st, Grown(|st.blocks|), p).Some? ==>
              var st' := ExpandF(st, Grown(|st.blocks|), p).value;
              && st'.ptr == NewStorage(st, p).value && st'.ptr.Clear(p) && st'.ptr.Clear(st.ptr)
              && |st'.blocks| == Grown(|st.blocks|)
              && Sound(st') && Moved(st, st')
              && (Coalesced(st.blocks) ==> Coalesced(st'.blocks))
              && -8 <= Count(st'.blocks) - Count(st.blocks) <= 5
              && Holds(st'.blocks, st.ptr.addr, st.ptr.End(), Conv, false)
  {
    hide Insert, Carve, LeftPart, RightPart, Disjoint, Coalesced, Count, At, SizeAlign, Placement, Aligned, Changed,
         AllocHere;
    if NewStorage(st, p).Some? {
      var r := NewStorage(st, p).value;
      PaddedReady(st, p);
      ClaimRoom(st, p);
      ExpandBytes(st, p, r, FreeHere(Claimed(st, r), st.ptr));
    }
  }

  /** Inside `expand`, neither the allocation of the new storage nor the release of
      the old one resizes the table again. */
  lemma ExpandQuiet(st: AllocState, p: OwnedPtr, r: OwnedPtr)
    requires Growable(st, p) && NewStorage(st, p) == Some(r) && Crowded(st.blocks)
    ensures !Crowded(Padded(st))
    ensures QuietRepaint(Padded(st), r.addr, r.End(), Conv, true)
    ensures QuietRepaint(Claimed(st, r), st.ptr.addr, st.ptr.End(), Conv, false)
  {
    hide Insert, Carve, LeftPart, RightPart, Disjoint, Coalesced, Count, At, SizeAlign, Placement, Aligned;
    PaddedReady(st, p);
    ClaimRoom(st, p);
    ClaimedBytes(st, p, r);
    ReleaseRoom(st, p, r);
    QuietByCount(Padded(st), r.addr, r.End(), Conv, true);
    QuietByCount(Claimed(st, r), st.ptr.addr, st.ptr.End(), Conv, false);
  }

  // ---- shrink ----

  lemma CompactStep(t: Table, s: nat, j: nat)
    requires Disjoint(t) && s < j < |t| && !t[s].Valid() && t[j].Valid()
    ensures SameRecords(t, t[s := t[j]][j := t[j].Invalidate()])
    ensures Count(t[s := t[j]][j := t[j].Invalidate()]) == Count(t)
  {
    hide Count;
    var u := t[s := t[j]];
    var t' := u[j := t[j].Invalidate()];
    CountUpdate(t, s, t[j]);
    CountUpdate(u, j, t[j].Invalidate());
    forall i, k | 0 <= i < |t'| && 0 <= k < |t'| && i != k ensures Apart(t'[i], t'[k]) {
      assert Apart(t[i], t[k]);
      assert i != j ==> Apart(t[i], t[j]);
      assert k != j ==> Apart(t[j], t[k]);
    }
    forall i | 0 <= i < |t| && t[i].Valid() ensures t[i] in t' {
      var k := if i == j then s else i;
      assert t'[k] == t[i];
    }
    forall i | 0 <= i < |t'| && t'[i].Valid() ensures t'[i] in t {
      var k := if i == s then j else i;
      assert t[k] == t'[i];
    }
  }

  /** With at most `n` valid records the unused slots below `n` never run out. */
  lemma SlotLeft(t: Table, n: nat, j: nat, slot: nat)
    requires slot <= n < j <= |t| && t[j - 1].Valid() && Count(t) <= n
    requires forall k :: 0 <= k < slot ==> t[k].Valid()
    ensures FirstInvalid(t[..n], slot) < n
  {
    CountFull(t[..n]);
    CountPrefix(t, n, j - 1);
    CountPrefix(t, j, |t|);
    assert t[..j][..j - 1] == t[..j - 1];
    assert t[..|t|] == t;
  }

  /** Compaction moves every record out of the slots that are given up. */
  lemma {:induction false} CompactKeeps(t: Table, n: nat, j: nat, slot: nat)
    requires Disjoint(t) && slot <= n <= j <= |t| && Count(t) <= n
    requires forall k :: 0 <= k < slot ==> t[k].Valid()
    requires forall k :: j <= k < |t| ==> !t[k].Valid()
    ensures Compact(t, n, j, slot).1
    ensures SameRecords(t, Compact(t, n, j, slot).0)
    ensures Count(Compact(t, n, j, slot).0) == Count(t)
    ensures forall k :: n <= k < |t| ==> !Compact(t, n, j, slot).0[k].Valid()
    decreases j
  {
    hide Count, Disjoint;
    if j == n {
    } else if !t[j - 1].Valid() {
      CompactKeeps(t, n, j - 1, slot);
    } else {
      SlotLeft(t, n, j, slot);
      var s := FirstInvalid(t[..n], slot);
      assert t[..n][s] == t[s];
      assert forall k :: slot <= k < s ==> t[..n][k].Valid();
      var t' := t[s := t[j - 1]][j - 1 := t[j - 1].Invalidate()];
      CompactStep(t, s, j - 1);
      CompactKeeps(t', n, j - 1, s + 1);
      SameRecordsTrans(t, t', Compact(t', n, j - 1, s + 1).0);
    }
  }

  lemma SameRecordsTrans(t: Table, u: Table, v: Table)
    requires SameRecords(t, u) && SameRecords(u, v)
    ensures SameRecords(t, v)
  {
    hide Disjoint;
    forall i | 0 <= i < |t| && t[i].Valid() ensures t[i] in v {
      var j :| 0 <= j < |u| && u[j] == t[i];
    }
    forall i | 0 <= i < |v| && v[i].Valid() ensures v[i] in t {
      var j :| 0 <= j < |u| && u[j] == v[i];
    }
  }

  lemma TruncateKeeps(t: Table, n: nat)
    requires Disjoint(t) && n <= |t| && forall k :: n <= k < |t| ==> !t[k].Valid()
    ensures SameRecords(t, t[..n]) && Count(t[..n]) == Count(t)
  {
    CountTail(t, n);
    forall i, k | 0 <= i < n && 0 <= k < n && i != k ensures Apart(t[..n][i], t[..n][k]) {
      assert Apart(t[i], t[k]);
    }
  }

  lemma AlignedShift(x: nat, y: nat, align: nat)
    requires align > 0 && x % align == 0
    ensures (x + y) % align == y % align
  {
    var q := x / align + y / align;
    assert x == x / align * align && y == y / align * align + y % align;
    assert q * align == x / align * align + y / align * align;
    DivUnique(x + y, align, q, y % align);
  }

  /** On a page-aligned table, `shrink` returns exactly the tail of the table's own
      storage if and only if what it keeps is a whole number of pages. */
  lemma ShrinkTailExact(ptr: OwnedPtr, n: nat, page: nat)
    requires BasePage(page) && Aligned(ptr.addr, page) && TableBytes(n, page) < ptr.size
    ensures ShrinkFreed(ptr, n, page) == OwnedPtr(ptr.addr + TableBytes(n, page), ptr.size - TableBytes(n, page))
            <==> Aligned(TableBytes(n, page), page)
  {
    var kept := TableBytes(n, page);
    AlignUpLeast(ptr.addr + kept, page);
    AlignedShift(ptr.addr, kept, page);
    if Aligned(kept, page) { AlignUpFixed(ptr.addr + kept, page); }
  }

  /** The kept part of the storage stays inside one used record, the freed part is
      cut out of that same record, and the table has room for the pieces. */
  lemma ShrinkCut(t: Table, ptr: OwnedPtr, kept: nat)
    requires Disjoint(t) && Holds(t, ptr.addr, ptr.End(), Conv, true)
    requires 0 < kept < ptr.size && Count(t) + 1 < |t|
    ensures Roomy(t, ptr.addr + kept, ptr.End())
    ensures Count(Carve(t, ptr.addr + kept, ptr.End())) == Count(t) - 1
    ensures Holds(t, ptr.addr, ptr.addr + kept, Conv, true)
  {
    var i :| 0 <= i < |t| && Houses(t[i], ptr.addr, ptr.End(), Conv, true);
    CarveSingle(t, ptr.addr + kept, ptr.End(), i);
    assert Houses(t[i], ptr.addr, ptr.addr + kept, Conv, true);
  }

  /** The release inside `shrink` does not resize the table again: its pieces never
      close a gap, because the byte before the freed tail is still used. */
  lemma ShrinkCutQuiet(t: Table, ptr: OwnedPtr, kept: nat)
    requires Disjoint(t) && Holds(t, ptr.addr, ptr.End(), Conv, true)
    requires 0 < kept < ptr.size && Count(t) + 1 < |t|
    ensures QuietRepaint(t, ptr.addr + kept, ptr.End(), Conv, false)
  {
    hide Insert, Carve, LeftPart, RightPart, Disjoint, Coalesced, Count, At;
    var lo, hi := ptr.addr + kept, ptr.End();
    ShrinkCut(t, ptr, kept);
    PartsNoBridge(t, lo, hi);
    var t1, t2, t3 := RepaintStages(t, lo, hi, Conv, false);
    HoldsAt(t, ptr.addr, ptr.End(), Conv, true, lo - 1);
    CarveBytes(t, lo, hi, lo - 1);
    assert At(t2, lo - 1) == Ram(Conv, true);
    var mid := RAMBlock(lo, hi - lo, Conv, false);
    var k := MergeBefore(t2, mid);
    if k >= 0 {
      KindAt(t2, k, lo - 1);
    }
  }

  lemma KindAt(t: Table, i: nat, a: nat)
    requires Disjoint(t) && i < |t|
    ensures t[i].Covers(a) ==> At(t, a) == Ram(t[i].ty, t[i].used)
  {
    if t[i].Covers(a) { AtIn(t, i, a); }
  }

  lemma StaysPut(st: AllocState, u: Table)
    requires Sound(st) && SameRecords(st.blocks, u) && |u| == |st.blocks|
    ensures Sound(st.(blocks := u)) && Moved(st, st.(blocks := u))
    ensures Coalesced(st.blocks) ==> Coalesced(u)
  {
    hide At, Disjoint, Coalesced, Layout;
    assert Layout(st.(blocks := u)) by { LayoutOnly(st, u); }
    CompactedSound(st, u);
    forall a: nat ensures st.ptr.Covers(a) ==> At(st.blocks, a) == Ram(Conv, true) {
      if st.ptr.Covers(a) { HoldsAt(st.blocks, st.ptr.addr, st.ptr.End(), Conv, true, a); }
    }
  }

  lemma LayoutOnly(st: AllocState, u: Table)
    requires Layout(st) && |u| == |st.blocks|
    ensures Layout(st.(blocks := u))
  {}

  /** Cutting the tail off the storage of a table that already fits in `n` slots. */
  lemma ShrinkTail(t: Table, ptr: OwnedPtr, kept: nat)
    requires Disjoint(t) && Holds(t, ptr.addr, ptr.End(), Conv, true)
    requires 0 < kept < ptr.size && Count(t) + 1 < |t|
    ensures var t' := Repaint(t, ptr.addr + kept, ptr.End(), Conv, false);
            && |t'| == |t| && Disjoint(t') && (Coalesced(t) ==> Coalesced(t'))
            && Holds(t', ptr.addr, ptr.addr + kept, Conv, true)
            && (forall a: nat {:trigger At(t', a)} :: At(t', a) ==
                  if ptr.addr <= a < ptr.addr + kept then Ram(Conv, true)
                  else if ptr.Covers(a) then Ram(Conv, false) else At(t, a))
  {
    hide Count, At, Disjoint, Coalesced, Repaint;
    ShrinkCut(t, ptr, kept);
    RepaintBytes(t, ptr.addr + kept, ptr.End(), Conv, false);
    RepaintHolds(t, ptr.addr + kept, ptr.End(), Conv, false, ptr.addr, ptr.addr + kept, Conv, true);
    forall a: nat ensures ptr.Covers(a) ==> At(t, a) == Ram(Conv, true) {
      if ptr.Covers(a) { HoldsAt(t, ptr.addr, ptr.End(), Conv, true, a); }
    }
  }

  /** A move of the table from `st` to `st'`, seen at one byte. */
  ghost predicate MovedByte(st: AllocState, st': AllocState, a: nat) {
    && At(st'.blocks, a) == (if st'.ptr.Covers(a) then Ram(Conv, true)
                             else if st.ptr.Covers(a) then Ram(Conv, false)
                             else At(st.blocks, a))
    && (st'.ptr.Covers(a) && !st.ptr.Covers(a) ==> At(st.blocks, a) == Ram(Conv, false))
  }

  lemma MovedByBytes(st: AllocState, st': AllocState)
    requires st'.page == st.page && forall a: nat :: MovedByte(st, st', a)
    ensures Moved(st, st')
  {
    hide At, OwnedPtr.Covers;
    forall a: nat
      ensures At(st'.blocks, a) ==
                if st'.ptr.Covers(a) then Ram(Conv, true)
                else if INVALID.Covers(a) then Ram(INVALID.ty, INVALID.used)
                else if st.ptr.Covers(a) then Ram(Conv, false)
                else At(st.blocks, a)
      ensures st'.ptr.Covers(a) && !st.ptr.Covers(a) ==> At(st.blocks, a) == Ram(Conv, false)
    {
      assert MovedByte(st, st', a) && !INVALID.Covers(a);
    }
    hide RAMBlock.Covers, MovedByte;
  }

  lemma ShrinkBytes(st: AllocState, t: Table, kept: nat)
    requires Disjoint(t) && Holds(t, st.ptr.addr, st.ptr.End(), Conv, true)
    requires 0 < kept < st.ptr.size && Count(t) + 1 < |t|
    requires forall a: nat :: At(t, a) == At(st.blocks, a)
    ensures Moved(st, AllocState(Repaint(t, st.ptr.addr + kept, st.ptr.End(), Conv, false),
                                 OwnedPtr(st.ptr.addr, kept), st.page))
  {
    hide Count, At, Disjoint, Coalesced, Repaint, Holds, Moved;
    var st' := AllocState(Repaint(t, st.ptr.addr + kept, st.ptr.End(), Conv, false),
                          OwnedPtr(st.ptr.addr, kept), st.page);
    forall a: nat ensures MovedByte(st, st', a) {
      ShrinkByte(t, st.ptr, kept, a);
      assert At(t, a) == At(st.blocks, a);
    }
    hide MovedByte;
    MovedByBytes(st, st');
  }

  /** The cut-off tail, seen at one byte. */
  lemma ShrinkByte(t: Table, ptr: OwnedPtr, kept: nat, a: nat)
    requires Disjoint(t) && Holds(t, ptr.addr, ptr.End(), Conv, true)
    requires 0 < kept < ptr.size && Count(t) + 1 < |t|
    ensures At(Repaint(t, ptr.addr + kept, ptr.End(), Conv, false), a) ==
              if ptr.addr <= a < ptr.addr + kept then Ram(Conv, true)
              else if ptr.Covers(a) then Ram(Conv, false) else At(t, a)
  {
    hide Count, At, Disjoint, Coalesced, Repaint, Holds;
    ShrinkTail(t, ptr, kept);
  }

  /** Shrinking keeps all records and moves the table into the front of its own
      storage; the rest of that storage becomes free. */
  lemma ShrinkMoves(st: AllocState, n: nat)
    requires Sound(st) && BASE_RB_SIZE <= n && Count(st.blocks) + 1 < n
    ensures Sound(ShrinkF(st, n)) && Moved(st, ShrinkF(st, n))
    ensures ShrinkF(st, n).ptr.addr == st.ptr.addr && ShrinkF(st, n).ptr.size <= st.ptr.size
    ensures Coalesced(st.blocks) ==> Coalesced(ShrinkF(st, n).blocks)
  {
    hide Count, At, Disjoint, Coalesced, Compact, SizeAlign, Repaint, Aligned, BasePage, Changed;
    var t := st.blocks;
    StaysPut(st, t);
    if n < |t| {
      var kept := TableBytes(n, st.page);
      TableBytesPositive(n, st.page);
      SizeAlignMonotone(n * RECORD_BYTES, |t| * RECORD_BYTES, st.page);
      CompactKeeps(t, n, |t|, 0);
      var u := Compact(t, n, |t|, 0).0;
      StaysPut(st, u);
      if kept < st.ptr.size {
        ShrinkTailExact(st.ptr, n, st.page);
        TruncateKeeps(u, n);
        CompactedSound(st.(blocks := u), u[..n]);
        ShrinkTail(u[..n], st.ptr, kept);
        CompactedSound(st, u);
        ShrinkBytes(st, u[..n], kept);
      }
    }
  }

  lemma CompactedSound(st: AllocState, u: Table)
    requires SameRecords(st.blocks, u) && Hosted(st)
    ensures Holds(u, st.ptr.addr, st.ptr.End(), Conv, true)
    ensures forall a: nat :: At(u, a) == At(st.blocks, a)
    ensures Coalesced(st.blocks) ==> Coalesced(u)
  {
    hide At, Coalesced;
    SameRecordsHolds(st.blocks, u, st.ptr.addr, st.ptr.End(), Conv, true);
    forall a: nat ensures At(u, a) == At(st.blocks, a) { SameRecordsAt(st.blocks, u, a); }
    if Coalesced(st.blocks) { SameRecordsCoalesced(st.blocks, u); }
  }
}
