/** Repainting a range of the byte map: the table edit shared by `alloc` and `free`.
    Every record the range cuts is removed, the parts outside the range are inserted
    again, and the range itself is inserted with its new kind. */
module Repainting {
  import opened RamTable

  function Carve(t: Table, lo: nat, hi: nat): (c: Table)
    ensures |c| == |t|
  {
    seq(|t|, i requires 0 <= i < |t| =>
      if t[i].Overlaps(lo, hi) then t[i].Invalidate() else t[i])
  }

  /** Last index below `n` of a cut record that reaches out to the left (or right). */
  function LastCut(t: Table, lo: nat, hi: nat, left: bool, n: nat): (i: int)
    requires n <= |t|
    ensures -1 <= i < n
    ensures i >= 0 ==> t[i].Overlaps(lo, hi) && if left then t[i].addr < lo else hi < t[i].End()
    ensures forall k :: i < k < n && t[k].Overlaps(lo, hi) ==>
              if left then lo <= t[k].addr else t[k].End() <= hi
  {
    if n == 0 then -1
    else if t[n - 1].Overlaps(lo, hi) && (if left then t[n - 1].addr < lo else hi < t[n - 1].End()) then n - 1
    else LastCut(t, lo, hi, left, n - 1)
  }

  function LeftPart(t: Table, lo: nat, hi: nat): (b: RAMBlock)
    ensures b.Valid() ==> b.End() == lo
  {
    var i := LastCut(t, lo, hi, true, |t|);
    if i < 0 then INVALID else RAMBlock(t[i].addr, lo - t[i].addr, t[i].ty, t[i].used)
  }

  function RightPart(t: Table, lo: nat, hi: nat): (b: RAMBlock)
    ensures b.Valid() ==> b.addr == hi
  {
    var i := LastCut(t, lo, hi, false, |t|);
    if i < 0 then INVALID else RAMBlock(hi, t[i].End() - hi, t[i].ty, t[i].used)
  }

  /** The table with the range cut out and the parts outside it put back. */
  function CutOut(t: Table, lo: nat, hi: nat): Table {
    Insert(Insert(Carve(t, lo, hi), LeftPart(t, lo, hi)), RightPart(t, lo, hi))
  }

  function Repaint(t: Table, lo: nat, hi: nat, ty: RAMType, used: bool): Table
    requires lo <= hi
  {
    Insert(CutOut(t, lo, hi), RAMBlock(lo, hi - lo, ty, used))
  }

  /** After cutting the range out, a slot is left for the range itself. */
  predicate Roomy(t: Table, lo: nat, hi: nat) {
    Count(Carve(t, lo, hi)) + One(LeftPart(t, lo, hi)) + One(RightPart(t, lo, hi)) < |t|
  }

  // ---- Carving ----

  lemma FreshBytes(t: Table, b: RAMBlock)
    ensures Fresh(t, b) <==> forall a: nat :: b.Covers(a) ==> At(t, a) == Hole
  {
    if Fresh(t, b) {
      forall a: nat | b.Covers(a) ensures At(t, a) == Hole {
        forall i ensures !In(t, i, a) {
          assert 0 <= i < |t| ==> Apart(t[i], b);
        }
      }
    } else {
      var i :| 0 <= i < |t| && !Apart(t[i], b);
      var a := if t[i].addr < b.addr then b.addr else t[i].addr;
      assert b.Covers(a) && In(t, i, a);
    }
  }

  lemma CarveDisjoint(t: Table, lo: nat, hi: nat)
    requires Disjoint(t)
    ensures Disjoint(Carve(t, lo, hi))
    ensures Coalesced(t) ==> Coalesced(Carve(t, lo, hi))
  {
    var c := Carve(t, lo, hi);
    forall i, j | 0 <= i < |c| && 0 <= j < |c| && i != j ensures Apart(c[i], c[j]) {
      assert Apart(t[i], t[j]);
    }
    if Coalesced(t) {
      forall i, j | 0 <= i < |c| && 0 <= j < |c| ensures c[i].IsMergable(c[j]) != -1 {
        assert t[i].IsMergable(t[j]) != -1;
      }
    }
  }

  /** A byte keeps its status under carving exactly when its record is not cut. */
  lemma CarveAt(t: Table, lo: nat, hi: nat, i: int, a: nat)
    requires Disjoint(t) && In(t, i, a)
    ensures At(Carve(t, lo, hi), a) == if t[i].Overlaps(lo, hi) then Hole else At(t, a)
  {
    var c := Carve(t, lo, hi);
    CarveDisjoint(t, lo, hi);
    AtIn(t, i, a);
    if t[i].Overlaps(lo, hi) {
      forall j ensures !In(c, j, a) {
        assert In(c, j, a) ==> In(t, j, a) && j != i;
        assert 0 <= j < |t| && j != i ==> Apart(t[i], t[j]);
      }
    } else {
      assert In(c, i, a);
      AtIn(c, i, a);
    }
  }

  lemma CarveHole(t: Table, lo: nat, hi: nat, a: nat)
    requires At(t, a) == Hole
    ensures At(Carve(t, lo, hi), a) == Hole
  {
    forall j ensures !In(Carve(t, lo, hi), j, a) {
      assert In(Carve(t, lo, hi), j, a) ==> In(t, j, a);
    }
  }

  /** The part of a cut record outside the range is what the saved records cover. */
  lemma PartsCover(t: Table, lo: nat, hi: nat, i: int, a: nat)
    requires Disjoint(t) && In(t, i, a) && lo <= hi
    ensures LeftPart(t, lo, hi).Covers(a) <==> t[i].Overlaps(lo, hi) && a < lo
    ensures LeftPart(t, lo, hi).Covers(a) ==> LeftPart(t, lo, hi).SameKind(t[i])
    ensures RightPart(t, lo, hi).Covers(a) <==> t[i].Overlaps(lo, hi) && hi <= a
    ensures RightPart(t, lo, hi).Covers(a) ==> RightPart(t, lo, hi).SameKind(t[i])
  {
    var l, r := LastCut(t, lo, hi, true, |t|), LastCut(t, lo, hi, false, |t|);
    assert l < 0 || l == i || Apart(t[l], t[i]);
    assert r < 0 || r == i || Apart(t[r], t[i]);
  }

  lemma PartsHole(t: Table, lo: nat, hi: nat, a: nat)
    requires At(t, a) == Hole && lo <= hi
    ensures !LeftPart(t, lo, hi).Covers(a) && !RightPart(t, lo, hi).Covers(a)
  {
    var l, r := LastCut(t, lo, hi, true, |t|), LastCut(t, lo, hi, false, |t|);
    assert !In(t, l, a) && !In(t, r, a);
  }

  /** The byte map after carving, and what the two saved parts restore of it. */
  lemma CarveBytes(t: Table, lo: nat, hi: nat, a: nat)
    requires Disjoint(t) && lo <= hi
    ensures LeftPart(t, lo, hi).Covers(a) ==>
              At(Carve(t, lo, hi), a) == Hole && At(t, a) == Ram(LeftPart(t, lo, hi).ty, LeftPart(t, lo, hi).used)
    ensures RightPart(t, lo, hi).Covers(a) ==>
              At(Carve(t, lo, hi), a) == Hole && At(t, a) == Ram(RightPart(t, lo, hi).ty, RightPart(t, lo, hi).used)
    ensures lo <= a < hi ==> At(Carve(t, lo, hi), a) == Hole
    ensures !LeftPart(t, lo, hi).Covers(a) && !RightPart(t, lo, hi).Covers(a) && !(lo <= a < hi) ==>
              At(Carve(t, lo, hi), a) == At(t, a)
  {
    if At(t, a) == Hole {
      CarveHole(t, lo, hi, a);
      PartsHole(t, lo, hi, a);
    } else {
      var i := AtWitness(t, a);
      CarveAt(t, lo, hi, i, a);
      PartsCover(t, lo, hi, i, a);
    }
  }

  // ---- Repainting ----

  /** A record that is apart from everything painted so far can still be inserted. */
  lemma PaintedFresh(t: Table, b: RAMBlock, t': Table, c: RAMBlock)
    requires Painted(t, b, t') && Fresh(t, c) && Apart(b, c)
    ensures Fresh(t', c)
  {
    FreshBytes(t, c);
    FreshBytes(t', c);
  }

  /** The record table and its parts fit together before the first insertion. */
  lemma PartsFresh(t: Table, lo: nat, hi: nat, ty: RAMType, used: bool)
    requires Disjoint(t) && lo <= hi
    ensures Disjoint(Carve(t, lo, hi))
    ensures Fresh(Carve(t, lo, hi), LeftPart(t, lo, hi))
    ensures Fresh(Carve(t, lo, hi), RightPart(t, lo, hi))
    ensures Fresh(Carve(t, lo, hi), RAMBlock(lo, hi - lo, ty, used))
  {
    CarveDisjoint(t, lo, hi);
    var c := Carve(t, lo, hi);
    forall a: nat
      ensures LeftPart(t, lo, hi).Covers(a) ==> At(c, a) == Hole
      ensures RightPart(t, lo, hi).Covers(a) ==> At(c, a) == Hole
      ensures lo <= a < hi ==> At(c, a) == Hole
    {
      CarveBytes(t, lo, hi, a);
    }
    FreshBytes(c, LeftPart(t, lo, hi));
    FreshBytes(c, RightPart(t, lo, hi));
    FreshBytes(c, RAMBlock(lo, hi - lo, ty, used));
  }

  /** The three tables a repaint goes through, each painted from the one before. */
  ghost predicate Stages(t: Table, lo: nat, hi: nat, ty: RAMType, used: bool, t1: Table, t2: Table, t3: Table)
    requires lo <= hi
  {
    && t1 == Insert(Carve(t, lo, hi), LeftPart(t, lo, hi))
    && t2 == Insert(t1, RightPart(t, lo, hi))
    && t3 == Insert(t2, RAMBlock(lo, hi - lo, ty, used))
    && Painted(Carve(t, lo, hi), LeftPart(t, lo, hi), t1)
    && Painted(t1, RightPart(t, lo, hi), t2)
    && Painted(t2, RAMBlock(lo, hi - lo, ty, used), t3)
    && (Coalesced(t) ==> Coalesced(t1) && Coalesced(t2) && Coalesced(t3))
    && -1 <= Count(t1) - Count(Carve(t, lo, hi)) <= One(LeftPart(t, lo, hi))
    && -1 <= Count(t2) - Count(t1) <= One(RightPart(t, lo, hi))
    && -1 <= Count(t3) - Count(t2) <= 1
  }

  lemma RepaintStages(t: Table, lo: nat, hi: nat, ty: RAMType, used: bool)
      returns (t1: Table, t2: Table, t3: Table)
    requires Disjoint(t) && lo <= hi && Roomy(t, lo, hi)
    ensures Stages(t, lo, hi, ty, used, t1, t2, t3)
    ensures t3 == Repaint(t, lo, hi, ty, used)
  {
    var c, l, r := Carve(t, lo, hi), LeftPart(t, lo, hi), RightPart(t, lo, hi);
    var m := RAMBlock(lo, hi - lo, ty, used);
    PartsFresh(t, lo, hi, ty, used);
    CarveDisjoint(t, lo, hi);
    InsertPaints(c, l);
    InsertCount(c, l);
    t1 := Insert(c, l);
    PaintedFresh(c, l, t1, r);
    PaintedFresh(c, l, t1, m);
    InsertPaints(t1, r);
    InsertCount(t1, r);
    t2 := Insert(t1, r);
    PaintedFresh(t1, r, t2, m);
    InsertPaints(t2, m);
    InsertCount(t2, m);
    t3 := Insert(t2, m);
    if Coalesced(t) {
      InsertCoalesced(c, l);
      InsertCoalesced(t1, r);
      InsertCoalesced(t2, m);
    }
  }

  /** Repainting changes the byte map on the range only, keeps the table disjoint and
      coalesced, and leaves the record count within three of the carved table's. */
  lemma RepaintBytes(t: Table, lo: nat, hi: nat, ty: RAMType, used: bool)
    requires Disjoint(t) && lo <= hi && Roomy(t, lo, hi)
    ensures |Repaint(t, lo, hi, ty, used)| == |t|
    ensures Disjoint(Repaint(t, lo, hi, ty, used))
    ensures Coalesced(t) ==> Coalesced(Repaint(t, lo, hi, ty, used))
    ensures -3 <= Count(Repaint(t, lo, hi, ty, used)) - Count(Carve(t, lo, hi)) <= 3
    ensures lo < hi ==> Holds(Repaint(t, lo, hi, ty, used), lo, hi, ty, used)
    ensures forall a: nat :: At(Repaint(t, lo, hi, ty, used), a) ==
              if lo <= a < hi then Ram(ty, used) else At(t, a)
  {
    hide Insert, Carve, LeftPart, RightPart, Disjoint, Coalesced, Count, At;
    var t1, t2, t3 := RepaintStages(t, lo, hi, ty, used);
    forall a: nat
      ensures At(t3, a) == if lo <= a < hi then Ram(ty, used) else At(t, a)
    {
      CarveBytes(t, lo, hi, a);
      assert RAMBlock(lo, hi - lo, ty, used).Covers(a) <==> lo <= a < hi;
    }
  }

  lemma HoldsStep(t: Table, b: RAMBlock, t': Table, s: nat, e: nat, ty: RAMType, used: bool)
    requires Painted(t, b, t') && Holds(t, s, e, ty, used)
    ensures Holds(t', s, e, ty, used)
  {
    var i :| 0 <= i < |t| && Houses(t[i], s, e, ty, used);
    assert Holds(t', t[i].addr, t[i].End(), t[i].ty, t[i].used);
    var j :| 0 <= j < |t'| && Houses(t'[j], t[i].addr, t[i].End(), t[i].ty, t[i].used);
    assert Houses(t'[j], s, e, ty, used);
  }

  /** A range outside the repainted one stays inside a single record of its kind. */
  lemma RepaintHolds(t: Table, lo: nat, hi: nat, ty: RAMType, used: bool, s: nat, e: nat, ty': RAMType, used': bool)
    requires Disjoint(t) && lo <= hi && Roomy(t, lo, hi)
    requires Holds(t, s, e, ty', used') && s < e && (e <= lo || hi <= s)
    ensures Holds(Repaint(t, lo, hi, ty, used), s, e, ty', used')
  {
    var t1, t2, t3 := RepaintStages(t, lo, hi, ty, used);
    var c := Carve(t, lo, hi);
    var l, r := LeftPart(t, lo, hi), RightPart(t, lo, hi);
    var i :| 0 <= i < |t| && Houses(t[i], s, e, ty', used');
    PartsCover(t, lo, hi, i, s);
    PartsCover(t, lo, hi, i, e - 1);
    if !t[i].Overlaps(lo, hi) {
      assert Houses(c[i], s, e, ty', used');
      HoldsStep(c, l, t1, s, e, ty', used');
      HoldsStep(t1, r, t2, s, e, ty', used');
    } else if e <= lo {
      assert l.Covers(s) && l.Covers(e - 1) && l.SameKind(t[i]);
      HoldsPart(t1, l, s, e);
      HoldsStep(t1, r, t2, s, e, ty', used');
    } else {
      assert r.Covers(s) && r.Covers(e - 1) && r.SameKind(t[i]);
      HoldsPart(t2, r, s, e);
    }
    HoldsStep(t2, RAMBlock(lo, hi - lo, ty, used), t3, s, e, ty', used');
  }

  lemma HoldsPart(t: Table, b: RAMBlock, s: nat, e: nat)
    requires Holds(t, b.addr, b.End(), b.ty, b.used) && b.Contains(s, e)
    ensures Holds(t, s, e, b.ty, b.used)
  {
    var j :| 0 <= j < |t| && Houses(t[j], b.addr, b.End(), b.ty, b.used);
    assert Houses(t[j], s, e, b.ty, b.used);
  }

  // ---- Record counts ----

  lemma {:induction false} CarveCount(t: Table, lo: nat, hi: nat)
    ensures Count(Carve(t, lo, hi)) <= Count(t)
  {
    if t != [] {
      var n := |t| - 1;
      assert Carve(t, lo, hi)[..n] == Carve(t[..n], lo, hi);
      CarveCount(t[..n], lo, hi);
    }
  }

  lemma OnlyCut(t: Table, lo: nat, hi: nat, i: nat, j: nat)
    requires Disjoint(t) && lo < hi && i < |t| && t[i].Contains(lo, hi) && j < |t|
    ensures t[j].Overlaps(lo, hi) <==> j == i
  {
    assert j == i || Apart(t[i], t[j]);
  }

  /** A non-empty range inside one record cuts that record and no other. */
  lemma CarveSingle(t: Table, lo: nat, hi: nat, i: nat)
    requires Disjoint(t) && lo < hi && i < |t| && t[i].Contains(lo, hi)
    ensures Carve(t, lo, hi) == t[i := t[i].Invalidate()]
    ensures Count(Carve(t, lo, hi)) == Count(t) - 1
  {
    forall j: nat | j < |t| ensures Carve(t, lo, hi)[j] == t[i := t[i].Invalidate()][j] {
      OnlyCut(t, lo, hi, i, j);
    }
    CountUpdate(t, i, t[i].Invalidate());
  }

  lemma PartsSingle(t: Table, lo: nat, hi: nat, i: nat)
    requires Disjoint(t) && lo < hi && i < |t| && t[i].Contains(lo, hi)
    ensures var l := RAMBlock(t[i].addr, lo - t[i].addr, t[i].ty, t[i].used);
            if l.Valid() then LeftPart(t, lo, hi) == l else !LeftPart(t, lo, hi).Valid()
    ensures var r := RAMBlock(hi, t[i].End() - hi, t[i].ty, t[i].used);
            if r.Valid() then RightPart(t, lo, hi) == r else !RightPart(t, lo, hi).Valid()
  {
    var l, r := LastCut(t, lo, hi, true, |t|), LastCut(t, lo, hi, false, |t|);
    if l >= 0 { OnlyCut(t, lo, hi, i, l); }
    if r >= 0 { OnlyCut(t, lo, hi, i, r); }
    OnlyCut(t, lo, hi, i, i);
  }

  lemma CarveNothing(t: Table, lo: nat, hi: nat)
    requires lo < hi && Fresh(t, RAMBlock(lo, hi - lo, Conv, false))
    ensures Carve(t, lo, hi) == t
    ensures !LeftPart(t, lo, hi).Valid() && !RightPart(t, lo, hi).Valid()
  {
    forall j | 0 <= j < |t| ensures !t[j].Overlaps(lo, hi) {
      assert Apart(t[j], RAMBlock(lo, hi - lo, Conv, false));
    }
  }

  // ---- The saved parts never close a gap ----

  /** The saved parts border on bytes that belong to no record at that moment. */
  lemma PartsNoBridge(t: Table, lo: nat, hi: nat)
    requires Disjoint(t) && lo < hi && Roomy(t, lo, hi)
    ensures !Bridges(Carve(t, lo, hi), LeftPart(t, lo, hi))
    ensures !Bridges(Insert(Carve(t, lo, hi), LeftPart(t, lo, hi)), RightPart(t, lo, hi))
  {
    hide Insert, Carve, LeftPart, RightPart, MergeBefore, MergeAfter, Disjoint, At, Count, Coalesced, Roomy;
    var c, l, r := Carve(t, lo, hi), LeftPart(t, lo, hi), RightPart(t, lo, hi);
    HoleInside(t, lo, hi);
    PartEnds(t, lo, hi);
    if l.Valid() { NoneAfter(c, l); }
    if r.Valid() { NoneBefore(Insert(c, l), r); }
  }

  /** The bytes of the range belong to no record while its parts are put back. */
  lemma HoleInside(t: Table, lo: nat, hi: nat)
    requires Disjoint(t) && lo < hi && Roomy(t, lo, hi)
    ensures At(Carve(t, lo, hi), lo) == Hole
    ensures At(Insert(Carve(t, lo, hi), LeftPart(t, lo, hi)), hi - 1) == Hole
  {
    hide Insert, Carve, LeftPart, RightPart, Disjoint, At, Count, Coalesced, Painted, Roomy;
    CarveBytes(t, lo, hi, lo);
    CarveBytes(t, lo, hi, hi - 1);
    PartEnds(t, lo, hi);
    var t1, t2, t3 := RepaintStages(t, lo, hi, Conv, false);
    PaintedOff(Carve(t, lo, hi), LeftPart(t, lo, hi), t1, hi - 1);
  }

  lemma PaintedOff(t: Table, b: RAMBlock, t': Table, a: nat)
    requires Painted(t, b, t') && !b.Covers(a)
    ensures At(t', a) == At(t, a)
  {
    hide At, Disjoint;
  }

  lemma PartEnds(t: Table, lo: nat, hi: nat)
    ensures LeftPart(t, lo, hi).Valid() ==> LeftPart(t, lo, hi).End() == lo
    ensures RightPart(t, lo, hi).Valid() ==> RightPart(t, lo, hi).addr == hi
  {
    hide LastCut;
  }

  /** Behind a hole there is nothing to merge with. */
  lemma NoneAfter(t: Table, b: RAMBlock)
    requires b.Valid() && At(t, b.End()) == Hole
    ensures MergeAfter(t, b) < 0
  {
    hide At;
    if MergeAfter(t, b) >= 0 { NoRecordAt(t, MergeAfter(t, b), b.End()); }
  }

  lemma NoneBefore(t: Table, b: RAMBlock)
    requires b.Valid() && b.addr > 0 && At(t, b.addr - 1) == Hole
    ensures MergeBefore(t, b) < 0
  {
    hide At;
    if MergeBefore(t, b) >= 0 { NoRecordAt(t, MergeBefore(t, b), b.addr - 1); }
  }

  lemma NoRecordAt(t: Table, i: nat, a: nat)
    requires i < |t| && At(t, a) == Hole
    ensures !t[i].Covers(a)
  {
    assert !In(t, i, a);
  }
}
