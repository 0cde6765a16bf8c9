/** Whole runs of the allocator: reclaiming, ownership of allocated ranges, conservation
    of memory, and the round trip of an allocation and its release. */
module PhysRun {
  import opened Align
  import opened RamTable
  import opened Repainting
  import opened PhysSpec
  import opened PhysResize
  import opened PhysAllocate
  import opened PhysCanon
  import opened PhysFree
  import opened Wrappers

  // ---- reclaim, one iteration ----

  function IsReclaimable(b: RAMBlock): bool { b.ty == Reclaimable }

  /** Turns the first reclaimable record, used or not, into free conventional memory. */
  function ReclaimStep(st: AllocState): Option<AllocState> {
    var i := First(st.blocks, IsReclaimable);
    if i == |st.blocks| then None
    else
      var b := st.blocks[i];
      AddF(st.(blocks := st.blocks[i := b.Invalidate()]), RAMBlock(b.addr, b.size, Conv, false))
  }

  function FirstReclaimable(st: AllocState): RAMBlock
    requires First(st.blocks, IsReclaimable) < |st.blocks|
  {
    st.blocks[First(st.blocks, IsReclaimable)].(ty := Conv, used := false)
  }

  lemma RemovedRecord(t: Table, i: nat)
    requires Disjoint(t) && i < |t| && t[i].Valid()
    ensures Carve(t, t[i].addr, t[i].End()) == t[i := t[i].Invalidate()]
    ensures Count(t[i := t[i].Invalidate()]) < |t|
    ensures Disjoint(t[i := t[i].Invalidate()])
    ensures Coalesced(t) ==> Coalesced(t[i := t[i].Invalidate()])
    ensures Fresh(t[i := t[i].Invalidate()], t[i].(ty := Conv, used := false))
    ensures forall a: nat :: !t[i].Covers(a) ==> At(t[i := t[i].Invalidate()], a) == At(t, a)
  {
    hide Count, At, Disjoint, Coalesced, Carve;
    var b := t[i];
    CarveSingle(t, b.addr, b.End(), i);
    CarveDisjoint(t, b.addr, b.End());
    PartsSingle(t, b.addr, b.End(), i);
    PartsFresh(t, b.addr, b.End(), Conv, false);
    assert RAMBlock(b.addr, b.End() - b.addr, Conv, false) == b.(ty := Conv, used := false);
    forall a: nat | !b.Covers(a) ensures At(t[i := b.Invalidate()], a) == At(t, a) {
      CarveBytes(t, b.addr, b.End(), a);
    }
  }

  /** A reclaim iteration cannot fail, keeps the invariant, and turns exactly the bytes
      of one reclaimable record into free conventional memory. */
  lemma ReclaimStepBytes(st: AllocState)
    requires Sound(st) && First(st.blocks, IsReclaimable) < |st.blocks|
    ensures ReclaimStep(st).Some?
    ensures var st' := ReclaimStep(st).value;
            && Sound(st') && (Coalesced(st.blocks) ==> Coalesced(st'.blocks))
            && Changed(st, FirstReclaimable(st), st')
            && st'.ptr.addr == st.ptr.addr && st'.ptr.size <= st.ptr.size
  {
    hide Count, At, Disjoint, Coalesced, Insert, Isolated, Bridges, Layout, AddQuiet, Changed, First;
    var i := First(st.blocks, IsReclaimable);
    var b, nb := st.blocks[i], FirstReclaimable(st);
    RemovedRecord(st.blocks, i);
    var st1 := st.(blocks := st.blocks[i := b.Invalidate()]);
    LayoutOnly(st, st1.blocks);
    var k :| 0 <= k < |st.blocks| && Houses(st.blocks[k], st.ptr.addr, st.ptr.End(), Conv, true);
    assert Houses(st1.blocks[k], st.ptr.addr, st.ptr.End(), Conv, true);
    AddQuietSound(st1, nb);
    ReclaimChanged(st, st1, nb, AddQuiet(st1, nb));
  }

  lemma ReclaimChanged(st: AllocState, st1: AllocState, b: RAMBlock, st': AllocState)
    requires st1.ptr == st.ptr && st1.page == st.page && Changed(st1, b, st')
    requires st'.ptr.addr == st.ptr.addr && st'.ptr.size <= st.ptr.size
    requires forall a: nat :: !b.Covers(a) ==> At(st1.blocks, a) == At(st.blocks, a)
    ensures Changed(st, b, st')
  {
    hide At;
  }

  /** The reclaimable memory shrinks with every iteration, so `reclaim` terminates. */
  lemma ReclaimProgress(st: AllocState)
    requires Sound(st) && First(st.blocks, IsReclaimable) < |st.blocks|
    ensures ReclaimStep(st).Some?
            && FiltBytes(ReclaimStep(st).value.blocks, IsReclaimable) < FiltBytes(st.blocks, IsReclaimable)
  {
    hide At, Disjoint, Coalesced, Layout, Hosted, ReclaimStep, FiltBytes;
    ReclaimStepBytes(st);
    var t, t' := st.blocks, ReclaimStep(st).value.blocks;
    var i := First(t, IsReclaimable);
    forall a: nat | a in FiltBytes(t', IsReclaimable) ensures a in FiltBytes(t, IsReclaimable) {
      ReclaimableAt(t', a);
      ReclaimableAt(t, a);
    }
    var a := t[i].addr;
    AtIn(t, i, a);
    ReclaimableAt(t, a);
    ReclaimableAt(t', a);
    assert a in FiltBytes(t, IsReclaimable) && a !in FiltBytes(t', IsReclaimable);
  }

  predicate ReclaimableStatus(s: Status) { s.Ram? && s.ty == Reclaimable }

  lemma ReclaimableAt(t: Table, a: nat)
    requires Disjoint(t)
    ensures a in FiltBytes(t, IsReclaimable) <==> ReclaimableStatus(At(t, a))
  {
    FiltBytesIn(t, IsReclaimable, a);
    if At(t, a) != Hole {
      var i := AtWitness(t, a);
      forall j | In(t, j, a) ensures IsReclaimable(t[j]) <==> IsReclaimable(t[i]) { AtIn(t, j, a); }
    }
  }

  ghost function ReclaimF(st: AllocState): AllocState
    requires Sound(st)
    decreases FiltBytes(st.blocks, IsReclaimable)
  {
    if First(st.blocks, IsReclaimable) == |st.blocks| then st
    else
      ReclaimStepBytes(st);
      ReclaimProgress(st);
      ReclaimF(ReclaimStep(st).value)
  }

  /** All reclaimable memory, and no other, is free conventional memory afterwards. */
  ghost predicate Reclaimed(st: AllocState, st': AllocState) {
    forall a: nat {:trigger At(st'.blocks, a)} :: At(st'.blocks, a) ==
      if st'.ptr.Covers(a) then Ram(Conv, true)
      else if st.ptr.Covers(a) || ReclaimableStatus(At(st.blocks, a)) then Ram(Conv, false)
      else At(st.blocks, a)
  }

  lemma {:induction false} ReclaimBytes(st: AllocState)
    requires Sound(st)
    ensures Sound(ReclaimF(st)) && Reclaimed(st, ReclaimF(st))
    ensures Coalesced(st.blocks) ==> Coalesced(ReclaimF(st).blocks)
    ensures ReclaimF(st).ptr.addr == st.ptr.addr && ReclaimF(st).ptr.size <= st.ptr.size
    decreases FiltBytes(st.blocks, IsReclaimable)
  {
    hide At, Disjoint, Coalesced, Layout, Hosted, ReclaimStep, FiltBytes;
    var i := First(st.blocks, IsReclaimable);
    if i == |st.blocks| {
      NothingReclaimable(st);
    } else {
      ReclaimStepBytes(st);
      ReclaimProgress(st);
      var st1 := ReclaimStep(st).value;
      ReclaimBytes(st1);
      ReclaimCompose(st, st1, ReclaimF(st1), i);
    }
  }

  lemma NothingReclaimable(st: AllocState)
    requires Sound(st) && First(st.blocks, IsReclaimable) == |st.blocks|
    ensures Reclaimed(st, st)
  {
    hide At, Disjoint, Coalesced, Layout;
    forall a: nat ensures !ReclaimableStatus(At(st.blocks, a)) {
      if At(st.blocks, a) != Hole { var i := AtWitness(st.blocks, a); }
    }
    MovedRefl(st);
  }

  lemma ReclaimCompose(st: AllocState, st1: AllocState, st2: AllocState, i: nat)
    requires Sound(st) && i == First(st.blocks, IsReclaimable) < |st.blocks|
    requires Changed(st, FirstReclaimable(st), st1) && Reclaimed(st1, st2)
    requires st1.ptr.addr == st.ptr.addr && st1.ptr.size <= st.ptr.size
    requires st2.ptr.addr == st1.ptr.addr && st2.ptr.size <= st1.ptr.size
    ensures Reclaimed(st, st2)
  {
    hide At, Disjoint, Coalesced, Layout, Hosted;
    forall a: nat
      ensures At(st2.blocks, a) ==
                if st2.ptr.Covers(a) then Ram(Conv, true)
                else if st.ptr.Covers(a) || ReclaimableStatus(At(st.blocks, a)) then Ram(Conv, false)
                else At(st.blocks, a)
    {
      if st.blocks[i].Covers(a) { AtIn(st.blocks, i, a); }
      var x := At(st1.blocks, a);
    }
  }

  // ---- Ownership over whole runs ----

  /** A range some client holds, with the type it was allocated as. */
  datatype Owned = Owned(p: OwnedPtr, ty: RAMType)

  datatype Config = Config(st: AllocState, live: seq<Owned>)

  ghost predicate Holder(st: AllocState, o: Owned) {
    && o.p.size > 0 && o.p.Clear(st.ptr) && o.ty != Reclaimable
    && forall a: nat {:trigger At(st.blocks, a)} :: o.p.Covers(a) ==> At(st.blocks, a) == Ram(o.ty, true)
  }

  /** The table is sound, and no two clients hold a byte in common, nor a byte of the
      table, nor a byte the table calls free. */
  ghost predicate Safe(c: Config) {
    && Sound(c.st)
    && (forall i {:trigger c.live[i]} :: 0 <= i < |c.live| ==> Holder(c.st, c.live[i]))
    && PairClear(c.live)
  }

  ghost predicate PairClear(live: seq<Owned>) {
    forall i, j {:trigger live[i].p.Clear(live[j].p)} ::
      0 <= i < |live| && 0 <= j < |live| && i != j ==> live[i].p.Clear(live[j].p)
  }

  /** What is left of a held range once `q` is freed: at most a part on either side. */
  function Remains(o: Owned, q: OwnedPtr): seq<Owned> {
    if o.p.Clear(q) then [o]
    else
      (if o.p.addr < q.addr then [Owned(OwnedPtr(o.p.addr, q.addr - o.p.addr), o.ty)] else []) +
      (if q.End() < o.p.End() then [Owned(OwnedPtr(q.End(), o.p.End() - q.End()), o.ty)] else [])
  }

  function Without(live: seq<Owned>, q: OwnedPtr): seq<Owned> {
    if live == [] then [] else Without(live[..|live| - 1], q) + Remains(live[|live| - 1], q)
  }

  datatype Op = Alloc(params: AllocParams) | Release(q: OwnedPtr) | Reclaim

  /** Any covered range off the table may be freed: a held range, a part of one, or memory
      nobody holds, such as reserved or reclaimable memory. */
  ghost predicate MayFree(st: AllocState, q: OwnedPtr) {
    && q.Clear(st.ptr) && (q.size > 0 || Coalesced(st.blocks))
    && forall a: nat {:trigger At(st.blocks, a)} :: q.Covers(a) ==> At(st.blocks, a) != Hole
  }

  /** One call. Memory allocated as used is held until it is freed. */
  ghost predicate Step(c: Config, op: Op, c': Config) {
    match op
    case Alloc(params) =>
      var (st', res) := AllocF(c.st, params);
      && c'.st == st'
      && c'.live == if res.Some? && params.used && params.asType != Reclaimable
                    then c.live + [Owned(res.value, params.asType)] else c.live
    case Release(q) =>
      && MayFree(c.st, q)
      && FreeF(c.st, q) == Some(c'.st)
      && c'.live == Without(c.live, q)
    case Reclaim => Sound(c.st) && c'.st == ReclaimF(c.st) && c'.live == c.live
  }

  /** No call of the run is a `free` that meets the conflict. */
  ghost predicate Avoids(c: Config, op: Op) {
    op.Release? ==> !Conflict(c.st, op.q)
  }

  ghost predicate Run(cs: seq<Config>, ops: seq<Op>) {
    && |cs| == |ops| + 1
    && forall k {:trigger ops[k]} :: 0 <= k < |ops| ==> Step(cs[k], ops[k], cs[k + 1]) && Avoids(cs[k], ops[k])
  }

  /** A change elsewhere leaves a held range held. */
  lemma HolderStays(st: AllocState, b: RAMBlock, st': AllocState, o: Owned)
    requires Changed(st, b, st') && Sound(st') && Holder(st, o)
    requires forall a: nat :: o.p.Covers(a) ==> !b.Covers(a)
    ensures Holder(st', o)
  {
    hide At, Disjoint, Layout;
    StorageSizes(st', st');
    forall a: nat | o.p.Covers(a) ensures !st'.ptr.Covers(a) && At(st'.blocks, a) == Ram(o.ty, true) {
      var x := At(st.blocks, a);
    }
    ClearByBytes(o.p, st'.ptr);
  }

  lemma NewHolder(st: AllocState, b: RAMBlock, st': AllocState, p: OwnedPtr)
    requires Changed(st, b, st') && b == RAMBlock(p.addr, p.size, b.ty, true) && p.size > 0
    requires p.Clear(st'.ptr) && b.ty != Reclaimable
    ensures Holder(st', Owned(p, b.ty))
  {
    hide At;
  }

  lemma AllocStep(c: Config, params: AllocParams, c': Config)
    requires Safe(c) && Step(c, Alloc(params), c')
    ensures Safe(c') && (Coalesced(c.st.blocks) ==> Coalesced(c'.st.blocks))
  {
    hide At, Disjoint, Coalesced, Layout, Hosted, AllocF, Changed;
    AllocBytes(c.st, params);
    var (st', res) := AllocF(c.st, params);
    var b := if res.Some? then RAMBlock(res.value.addr, res.value.size, params.asType, params.used) else INVALID;
    forall i | 0 <= i < |c.live| ensures Holder(st', c.live[i]) && (res.Some? ==> c.live[i].p.Clear(res.value)) {
      forall a: nat | c.live[i].p.Covers(a) ensures !b.Covers(a) {
        var x := At(c.st.blocks, a);
      }
      HolderStays(c.st, b, st', c.live[i]);
      if res.Some? { ClearByBytes(c.live[i].p, res.value); }
    }
    if res.Some? && params.used && params.asType != Reclaimable {
      NewHolder(c.st, b, st', res.value);
    }
  }

  /** `o'` is a piece of `o` that does not meet `q`. */
  ghost predicate Piece(o: Owned, o': Owned, q: OwnedPtr) {
    && o'.ty == o.ty && o'.p.size > 0 && o'.p.Clear(q)
    && o.p.addr <= o'.p.addr && o'.p.End() <= o.p.End()
  }

  lemma RemainsPieces(o: Owned, q: OwnedPtr)
    requires o.p.size > 0
    ensures PairClear(Remains(o, q))
    ensures forall k {:trigger Remains(o, q)[k]} :: 0 <= k < |Remains(o, q)| ==> Piece(o, Remains(o, q)[k], q)
  {}

  /** Every element of `w` is a piece of some element of `live`. */
  ghost predicate Pieces(live: seq<Owned>, w: seq<Owned>, q: OwnedPtr) {
    forall k {:trigger w[k]} :: 0 <= k < |w| ==> PieceOf(live, w[k], q)
  }

  ghost predicate PieceOf(live: seq<Owned>, o: Owned, q: OwnedPtr) {
    exists i :: 0 <= i < |live| && Piece(live[i], o, q)
  }

  lemma PairPrefix(live: seq<Owned>, n: nat)
    requires PairClear(live) && n <= |live|
    ensures PairClear(live[..n])
  {
    forall i, j | 0 <= i < n && 0 <= j < n && i != j ensures live[..n][i].p.Clear(live[..n][j].p) {
      assert live[i].p.Clear(live[j].p);
    }
  }

  lemma PiecesOfLast(init: seq<Owned>, last: Owned, w: seq<Owned>, r: seq<Owned>, q: OwnedPtr)
    requires Pieces(init, w, q) && forall k {:trigger r[k]} :: 0 <= k < |r| ==> Piece(last, r[k], q)
    ensures Pieces(init + [last], w + r, q)
  {
    hide Piece;
    var live := init + [last];
    forall k | 0 <= k < |w + r| ensures PieceOf(live, (w + r)[k], q) {
      if k < |w| {
        assert PieceOf(init, w[k], q);
        var i :| 0 <= i < |init| && Piece(init[i], w[k], q);
        assert Piece(live[i], (w + r)[k], q);
      } else {
        assert Piece(live[|init|], r[k - |w|], q);
      }
    }
  }

  lemma ClearOfLast(init: seq<Owned>, last: Owned, w: seq<Owned>, r: seq<Owned>, q: OwnedPtr)
    requires PairClear(init + [last]) && PairClear(w) && PairClear(r)
    requires Pieces(init, w, q) && forall k {:trigger r[k]} :: 0 <= k < |r| ==> Piece(last, r[k], q)
    ensures PairClear(w + r)
  {
    forall x, y | 0 <= x < |w| && 0 <= y < |r| ensures w[x].p.Clear(r[y].p) && r[y].p.Clear(w[x].p) {
      assert PieceOf(init, w[x], q);
      var i :| 0 <= i < |init| && Piece(init[i], w[x], q);
      assert (init + [last])[i].p.Clear((init + [last])[|init|].p);
      assert Piece(last, r[y], q);
    }
    forall k, m | 0 <= k < |w + r| && 0 <= m < |w + r| && k != m ensures (w + r)[k].p.Clear((w + r)[m].p) {
      if k < |w| && m < |w| { assert w[k].p.Clear(w[m].p); }
      if k >= |w| && m >= |w| { assert r[k - |w|].p.Clear(r[m - |w|].p); }
    }
  }

  /** What freeing `q` leaves of the held ranges are pieces of them, apart from each other. */
  lemma {:induction false} WithoutPieces(live: seq<Owned>, q: OwnedPtr)
    requires PairClear(live) && forall i {:trigger live[i]} :: 0 <= i < |live| ==> live[i].p.size > 0
    ensures PairClear(Without(live, q)) && Pieces(live, Without(live, q), q)
  {
    hide PairClear, Pieces, Piece, Remains;
    if live != [] {
      var n := |live| - 1;
      PairPrefix(live, n);
      WithoutPieces(live[..n], q);
      RemainsPieces(live[n], q);
      assert live == live[..n] + [live[n]];
      PiecesOfLast(live[..n], live[n], Without(live[..n], q), Remains(live[n], q), q);
      ClearOfLast(live[..n], live[n], Without(live[..n], q), Remains(live[n], q), q);
    } else {
      NoPieces(q);
    }
  }

  lemma NoPieces(q: OwnedPtr)
    ensures PairClear([]) && Pieces([], [], q)
  {}

  /** Freeing a whole held range just ends that hold. */
  lemma {:induction false} WithoutWhole(live: seq<Owned>, i: nat)
    requires PairClear(live) && i < |live| && forall k {:trigger live[k]} :: 0 <= k < |live| ==> live[k].p.size > 0
    ensures Without(live, live[i].p) == live[..i] + live[i + 1..]
    decreases |live|
  {
    var n := |live| - 1;
    var q, init := live[i].p, live[..n];
    forall k | 0 <= k < |live| && k != i ensures live[k].p.Clear(q) {
      assert live[k].p.Clear(live[i].p);
    }
    PairPrefix(live, n);
    hide PairClear, OwnedPtr.Clear, OwnedPtr.End;
    if i < n {
      WithoutWhole(init, i);
      assert Remains(live[n], q) == [live[n]];
      DropOne(live, i);
    } else {
      WithoutNone(init, q);
      assert live[..i] + live[i + 1..] == init;
    }
  }

  lemma DropOne(live: seq<Owned>, i: nat)
    requires i < |live| - 1
    ensures var n, init := |live| - 1, live[..|live| - 1];
            live[..i] + live[i + 1..] == (init[..i] + init[i + 1..]) + [live[n]] && init[i] == live[i]
  {}

  lemma {:induction false} WithoutNone(live: seq<Owned>, q: OwnedPtr)
    requires forall k {:trigger live[k]} :: 0 <= k < |live| ==> live[k].p.Clear(q)
    ensures Without(live, q) == live
  {
    if live != [] {
      WithoutNone(live[..|live| - 1], q);
    }
  }

  lemma PieceHeld(st: AllocState, o: Owned, o': Owned, q: OwnedPtr)
    requires Holder(st, o) && Piece(o, o', q)
    ensures Holder(st, o')
  {
    hide At;
  }

  lemma ReleaseStep(c: Config, q: OwnedPtr, c': Config)
    requires Safe(c) && Step(c, Release(q), c') && Avoids(c, Release(q))
    ensures Safe(c')
    ensures Coalesced(c.st.blocks) && !Stale(c.st, q) ==> Coalesced(c'.st.blocks)
    ensures Changed(c.st, Middle(q), c'.st)
  {
    hide At, Disjoint, Coalesced, Layout, Hosted, FreeF, Changed, Stale, Conflict, Holder, PairClear;
    FreeBytes(c.st, q, c'.st);
    HoldersSized(c);
    WithoutPieces(c.live, q);
    forall k | 0 <= k < |c'.live| ensures Holder(c'.st, c'.live[k]) {
      assert PieceOf(c.live, c'.live[k], q);
      var i :| 0 <= i < |c.live| && Piece(c.live[i], c'.live[k], q);
      PieceHeld(c.st, c.live[i], c'.live[k], q);
      HolderStays(c.st, Middle(q), c'.st, c'.live[k]);
    }
    if Coalesced(c.st.blocks) { FreeCoalescedIff(c.st, q, c'.st); }
  }

  lemma HoldersSized(c: Config)
    requires Safe(c)
    ensures forall i {:trigger c.live[i]} :: 0 <= i < |c.live| ==> c.live[i].p.size > 0
  {}

  lemma ReclaimHolders(c: Config, c': Config)
    requires Safe(c) && Step(c, Reclaim, c')
    ensures Safe(c') && (Coalesced(c.st.blocks) ==> Coalesced(c'.st.blocks))
  {
    hide At, Disjoint, Coalesced, Layout, Hosted, ReclaimF;
    ReclaimBytes(c.st);
    forall i | 0 <= i < |c.live| ensures Holder(c'.st, c.live[i]) {
      assert Holder(c.st, c.live[i]);
      forall a: nat | c.live[i].p.Covers(a) ensures At(c'.st.blocks, a) == Ram(c.live[i].ty, true) {
        var x := At(c.st.blocks, a);
      }
    }
  }

  // ---- Conservation ----

  lemma ChangedTotal(st: AllocState, b: RAMBlock, st': AllocState)
    requires Sound(st) && Sound(st') && Changed(st, b, st')
    requires forall a: nat :: b.Covers(a) ==> At(st.blocks, a) != Hole
    ensures Total(st'.blocks) == Total(st.blocks)
  {
    hide At, Disjoint, Layout, Total, Free;
    SoundDisjoint(st);
    SoundDisjoint(st');
    forall a: nat ensures st.ptr.Covers(a) ==> At(st.blocks, a) == Ram(Conv, true) {
      if st.ptr.Covers(a) { HoldsAt(st.blocks, st.ptr.addr, st.ptr.End(), Conv, true, a); }
    }
    TotalsFollowBytes(st.blocks, st'.blocks);
  }

  lemma AllocTotal(c: Config, params: AllocParams, c': Config)
    requires Safe(c) && Step(c, Alloc(params), c')
    ensures Total(c'.st.blocks) == Total(c.st.blocks)
  {
    hide At, Disjoint, Coalesced, Layout, AllocF, Changed, Total;
    AllocBytes(c.st, params);
    var (st', res) := AllocF(c.st, params);
    var b := if res.Some? then RAMBlock(res.value.addr, res.value.size, params.asType, params.used) else INVALID;
    forall a: nat | b.Covers(a) ensures At(c.st.blocks, a) != Hole {
      if c.st.ptr.Covers(a) { HoldsAt(c.st.blocks, c.st.ptr.addr, c.st.ptr.End(), Conv, true, a); }
      var x := At(c.st.blocks, a);
    }
    ChangedTotal(c.st, b, st');
  }

  lemma ReclaimTotal(c: Config, c': Config)
    requires Safe(c) && Step(c, Reclaim, c')
    ensures Total(c'.st.blocks) == Total(c.st.blocks)
  {
    hide At, Disjoint, Coalesced, Layout, ReclaimF, Total, Free;
    ReclaimBytes(c.st);
    SoundDisjoint(c.st);
    SoundDisjoint(c'.st);
    forall a: nat ensures c.st.ptr.Covers(a) ==> At(c.st.blocks, a) == Ram(Conv, true) {
      if c.st.ptr.Covers(a) { HoldsAt(c.st.blocks, c.st.ptr.addr, c.st.ptr.End(), Conv, true, a); }
    }
    TotalsFollowBytes(c.st.blocks, c'.st.blocks);
  }

  lemma StepSafe(c: Config, op: Op, c': Config)
    requires Safe(c) && Step(c, op, c') && Avoids(c, op)
    ensures Safe(c') && Total(c'.st.blocks) == Total(c.st.blocks)
    ensures Coalesced(c.st.blocks) && (op.Release? ==> !Stale(c.st, op.q)) ==> Coalesced(c'.st.blocks)
  {
    hide At, Disjoint, Coalesced, Total, Sound, AllocF, FreeF, ReclaimF, Stale, Conflict, Changed;
    match op
    case Alloc(params) =>
      AllocStep(c, params, c');
      AllocTotal(c, params, c');
    case Release(q) =>
      ReleaseStep(c, q, c');
      ChangedTotal(c.st, Middle(q), c'.st);
    case Reclaim =>
      ReclaimHolders(c, c');
      ReclaimTotal(c, c');
  }

  /** In every configuration of every run: the table is sound, held ranges are disjoint
      from each other and from the table, and no byte of memory is gained or lost. */
  lemma {:induction false} RunSafe(cs: seq<Config>, ops: seq<Op>, k: nat)
    requires Run(cs, ops) && Safe(cs[0]) && k <= |ops|
    ensures Safe(cs[k]) && Total(cs[k].st.blocks) == Total(cs[0].st.blocks)
    decreases k
  {
    hide Safe, Step, Avoids, Total;
    if k > 0 {
      RunSafe(cs, ops, k - 1);
      assert Step(cs[k - 1], ops[k - 1], cs[k - 1 + 1]);
      StepSafe(cs[k - 1], ops[k - 1], cs[k]);
    }
  }

  /** If moreover no `free` adds a record beside the moving table, the table stays fully
      coalesced throughout. */
  lemma {:induction false} RunCoalesced(cs: seq<Config>, ops: seq<Op>, k: nat)
    requires Run(cs, ops) && Safe(cs[0]) && Coalesced(cs[0].st.blocks) && k <= |ops|
    requires forall m {:trigger ops[m]} :: 0 <= m < k && ops[m].Release? ==> !Stale(cs[m].st, ops[m].q)
    ensures Inv(cs[k].st)
    decreases k
  {
    hide Step, Avoids, Total, Stale, Coalesced;
    RunSafe(cs, ops, k);
    if k > 0 {
      RunCoalesced(cs, ops, k - 1);
      RunSafe(cs, ops, k - 1);
      assert Step(cs[k - 1], ops[k - 1], cs[k - 1 + 1]);
      StepSafe(cs[k - 1], ops[k - 1], cs[k]);
    }
  }

  // ---- Round trip ----

  /** A range inside one record can be cut out again if two slots are unused. */
  lemma RoomInside(t: Table, lo: nat, hi: nat, ty: RAMType, used: bool)
    requires Disjoint(t) && lo < hi && Holds(t, lo, hi, ty, used) && Count(t) + 1 < |t|
    ensures Roomy(t, lo, hi)
  {
    hide Count, Disjoint, Carve, LeftPart, RightPart;
    var i :| 0 <= i < |t| && Houses(t[i], lo, hi, ty, used);
    CarveSingle(t, lo, hi, i);
  }

  lemma PaintLeavesRoom(st: AllocState, lo: nat, hi: nat, ty: RAMType, used: bool, from: RAMType)
    requires Sound(st) && !Crowded(st.blocks) && lo < hi && Holds(st.blocks, lo, hi, from, false)
    ensures var u := Repaint(st.blocks, lo, hi, ty, used);
            Disjoint(u) && Holds(u, lo, hi, ty, used) && Count(u) + 1 < |u| == |st.blocks|
  {
    hide Count, At, Disjoint, Coalesced, Carve, Insert, LeftPart, RightPart, SizeAlign, Aligned, Repaint, Layout,
         Hosted;
    var t := st.blocks;
    var i :| 0 <= i < |t| && Houses(t[i], lo, hi, from, false);
    CarveSingle(t, lo, hi, i);
    RepaintBytes(t, lo, hi, ty, used);
  }

  /** An `add` that leaves the table its size at most moves records to other slots. */
  lemma QuietAdd(st: AllocState, b: RAMBlock, lo: nat, hi: nat, ty: RAMType, used: bool)
    requires |AddQuiet(st, b).blocks| == |st.blocks| && |Insert(st.blocks, b)| == |st.blocks|
    requires Disjoint(Insert(st.blocks, b)) && Holds(Insert(st.blocks, b), lo, hi, ty, used)
    ensures var u := AddQuiet(st, b).blocks;
            Disjoint(u) && Holds(u, lo, hi, ty, used) && Count(u) == Count(Insert(st.blocks, b))
  {
    hide Compact, Insert, Sparse, Carve, LeftPart, RightPart, Disjoint, Holds, Count, SizeAlign, Halved;
    var t, n := Insert(st.blocks, b), Halved(|st.blocks|);
    if n < |t| && n >= Count(t) {
      CompactKeeps(t, n, |t|, 0);
      var u := Compact(t, n, |t|, 0).0;
      SameRecordsHolds(t, u, lo, hi, ty, used);
      var freed := ShrinkFreed(st.ptr, n, st.page);
      PaintedLength(u[..n], freed);
    }
  }

  lemma PaintedLength(t: Table, p: OwnedPtr)
    ensures |FreeHere(t, p)| == |t|
  {}

  /** An allocation that resizes nothing leaves room to free it. */
  lemma AllocLeavesRoom(st: AllocState, params: AllocParams)
    requires Sound(st) && AllocF(st, params).1.Some?
    requires AllocF(st, params).0.ptr == st.ptr && |AllocF(st, params).0.blocks| == |st.blocks|
    ensures var (st1, res) := AllocF(st, params); Roomy(st1.blocks, res.value.addr, res.value.End())
  {
    hide Count, At, Disjoint, Coalesced, Layout, Holds, Changed, AddQuiet, Target, Split, MakeRoom, CutOut, Repaint,
         SizeAlign, Roomy, Insert, Crowded;
    var args := params.Build(st.page);
    assert BasePage(st.page) by { LayoutPage(st); }
    TargetShape(st.blocks, params, st.page);
    var p := Target(st.blocks, args, st.page).value;
    MakeRoomMoves(st, p);
    var m := MakeRoom(st, p).value;
    SplitHost(m.blocks, args, p);
    AllocHereRepaints(m.blocks, args, p);
    PaintAndShrink(m, p.addr, p.End(), args.asType, args.used, args.fromType);
    var b := RAMBlock(p.addr, p.size, args.asType, args.used);
    StorageSizes(st, m);
    assert m == st;
    assert |CutOut(st.blocks, p.addr, p.End())| == |st.blocks| by { CutOutLength(st.blocks, p.addr, p.End()); }
    PaintLeavesRoom(st, p.addr, p.End(), args.asType, args.used, args.fromType);
    PaintIsInsert(st.blocks, p, args);
    QuietAdd(st.(blocks := CutOut(st.blocks, p.addr, p.End())), b, p.addr, p.End(), args.asType, args.used);
    RoomInside(AllocF(st, params).0.blocks, p.addr, p.End(), args.asType, args.used);
  }

  lemma PaintIsInsert(t: Table, p: OwnedPtr, args: AllocParams)
    ensures Repaint(t, p.addr, p.End(), args.asType, args.used) ==
            Insert(CutOut(t, p.addr, p.End()), RAMBlock(p.addr, p.size, args.asType, args.used))
  {
    hide CutOut, Insert;
  }

  /** Allocating free conventional memory and freeing it again restores exactly the
      original records, when the table itself has not moved. */
  lemma AllocFreeRoundTrip(st: AllocState, params: AllocParams)
    requires Inv(st) && params.fromType == Conv
    requires var (st1, res) := AllocF(st, params);
             res.Some? && st1.ptr == st.ptr && |st1.blocks| == |st.blocks|
    ensures var (st1, res) := AllocF(st, params);
            && FreeF(st1, res.value).Some?
            && (FreeF(st1, res.value).value.ptr == st.ptr ==>
                  Records(FreeF(st1, res.value).value.blocks) == Records(st.blocks))
  {
    hide At, Disjoint, Coalesced, Layout, AllocF, FreeF, Roomy;
    AllocBytes(st, params);
    AllocLeavesRoom(st, params);
    var (st1, res) := AllocF(st, params);
    FreeRoomy(st1, res.value);
    var st2 := FreeF(st1, res.value).value;
    if st2.ptr == st.ptr {
      forall a: nat ensures At(st2.blocks, a) == At(st.blocks, a) {
        if st.ptr.Covers(a) { HoldsAt(st.blocks, st.ptr.addr, st.ptr.End(), Conv, true, a); }
        var x := At(st1.blocks, a);
      }
      Canonical(st2.blocks, st.blocks);
    }
  }
}
