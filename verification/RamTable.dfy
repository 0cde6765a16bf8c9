/** The record table of the physical RAM allocator as a sequence of `RAMBlock`
    records, the byte map it denotes, and the two table edits every allocator
    operation is made of: inserting a record with merging, and carving a range out. */
module RamTable {

  datatype RAMType =
    | Reserved | LoaderCode | LoaderData | BootSvcCode | BootSvcData
    | RtSvcCode | RtSvcData | Conv | Unusable | ACPIReclaim | ACPINonVolatile
    | MMIO | MMIOPortSpace | PALCode | PersistentRAM | Unaccepted | Max
    | KernelData | EfiRamLayout | ElfSegments | KernelPTable | Reclaimable
    | UserPTable | Kernel

  predicate NonRam(ty: RAMType) {
    ty == Reserved || ty == MMIO || ty == MMIOPortSpace
  }

  datatype RAMBlock = RAMBlock(addr: nat, size: nat, ty: RAMType, used: bool) {
    function End(): nat { addr + size }
    predicate Valid() { size > 0 }
    predicate SameKind(other: RAMBlock) { ty == other.ty && used == other.used }
    predicate Covers(a: nat) { addr <= a < End() }
    predicate Overlaps(lo: nat, hi: nat) { Valid() && addr < hi && lo < End() }
    predicate Contains(lo: nat, hi: nat) { addr <= lo && hi <= End() }

    function Invalidate(): RAMBlock { this.(size := 0) }

    /** -1: this block ends where `other` starts; 1: it starts where `other` ends. */
    function IsMergable(other: RAMBlock): int {
      if !Valid() || !other.Valid() then 0
      else if !SameKind(other) then 0
      else if End() == other.addr then -1
      else if other.End() == addr then 1
      else 0
    }
  }

  const INVALID := RAMBlock(0, 0, Reserved, false)

  type Table = seq<RAMBlock>

  /** What the table says about one byte of physical memory. */
  datatype Status = Hole | Ram(ty: RAMType, used: bool)

  predicate In(t: Table, i: int, a: nat) {
    0 <= i < |t| && t[i].Covers(a)
  }

  ghost function At(t: Table, a: nat): Status {
    if exists i :: In(t, i, a) then
      var i :| In(t, i, a);
      Ram(t[i].ty, t[i].used)
    else Hole
  }

  predicate Apart(b: RAMBlock, c: RAMBlock) {
    b.Valid() && c.Valid() ==> b.End() <= c.addr || c.End() <= b.addr
  }

  ghost predicate Disjoint(t: Table) {
    forall i, j {:trigger Apart(t[i], t[j])} :: 0 <= i < |t| && 0 <= j < |t| && i != j ==> Apart(t[i], t[j])
  }

  /** No two records could be merged. */
  ghost predicate Coalesced(t: Table) {
    forall i, j {:trigger t[i].IsMergable(t[j])} :: 0 <= i < |t| && 0 <= j < |t| ==> t[i].IsMergable(t[j]) != -1
  }

  /** `b` shares no byte with the valid records of `t`. */
  ghost predicate Fresh(t: Table, b: RAMBlock) {
    forall i {:trigger Apart(t[i], b)} :: 0 <= i < |t| ==> Apart(t[i], b)
  }

  /** Some record of the given kind contains the whole range. */
  ghost predicate Holds(t: Table, lo: nat, hi: nat, ty: RAMType, used: bool) {
    exists i {:trigger Houses(t[i], lo, hi, ty, used)} :: 0 <= i < |t| && Houses(t[i], lo, hi, ty, used)
  }

  predicate Houses(b: RAMBlock, lo: nat, hi: nat, ty: RAMType, used: bool) {
    b.Contains(lo, hi) && b.ty == ty && b.used == used && b.Valid()
  }

  // ---- The byte map ----

  lemma AtWitness(t: Table, a: nat) returns (i: int)
    requires At(t, a) != Hole
    ensures In(t, i, a) && At(t, a) == Ram(t[i].ty, t[i].used)
  {
    i :| In(t, i, a) && At(t, a) == Ram(t[i].ty, t[i].used);
  }

  lemma AtIn(t: Table, i: int, a: nat)
    requires Disjoint(t) && In(t, i, a)
    ensures At(t, a) == Ram(t[i].ty, t[i].used)
  {
    var j := AtWitness(t, a);
    assert t[i] == t[j] || Apart(t[i], t[j]);
  }

  lemma HoldsAt(t: Table, lo: nat, hi: nat, ty: RAMType, used: bool, a: nat)
    requires Disjoint(t) && Holds(t, lo, hi, ty, used) && lo <= a < hi
    ensures At(t, a) == Ram(ty, used)
  {
    var i :| 0 <= i < |t| && Houses(t[i], lo, hi, ty, used);
    AtIn(t, i, a);
  }

  // ---- Counting valid records ----

  function Count(t: Table): (n: nat)
    ensures n <= |t|
  {
    if t == [] then 0
    else Count(t[..|t| - 1]) + if t[|t| - 1].Valid() then 1 else 0
  }

  function One(b: RAMBlock): nat { if b.Valid() then 1 else 0 }

  lemma {:induction false} CountUpdate(t: Table, i: nat, b: RAMBlock)
    requires i < |t|
    ensures Count(t[i := b]) == Count(t) - One(t[i]) + One(b)
  {
    var n := |t| - 1;
    if i == n {
      assert t[i := b][..n] == t[..n];
    } else {
      assert t[i := b][..n] == t[..n][i := b];
      CountUpdate(t[..n], i, b);
    }
  }

  lemma {:induction false} CountFull(t: Table)
    ensures Count(t) == |t| <==> forall i :: 0 <= i < |t| ==> t[i].Valid()
  {
    if t != [] {
      var n := |t| - 1;
      CountFull(t[..n]);
      assert forall i :: 0 <= i < n ==> t[..n][i] == t[i];
    }
  }

  lemma {:induction false} CountTail(t: Table, n: nat)
    requires n <= |t|
    requires forall i :: n <= i < |t| ==> !t[i].Valid()
    ensures Count(t[..n]) == Count(t)
    decreases |t|
  {
    if n < |t| {
      var m := |t| - 1;
      assert t[..m][..n] == t[..n];
      CountTail(t[..m], n);
    } else {
      assert t[..n] == t;
    }
  }

  lemma {:induction false} CountPrefix(t: Table, m: nat, n: nat)
    requires m <= n <= |t|
    ensures Count(t[..m]) <= Count(t[..n])
    decreases n
  {
    if m < n {
      CountPrefix(t, m, n - 1);
      assert t[..n][..n - 1] == t[..n - 1];
    }
  }

  // ---- Searching ----

  /** Index of the first valid record that satisfies `p`, or `|t|`. */
  function First(t: Table, p: RAMBlock -> bool): (i: nat)
    ensures i <= |t|
    ensures i < |t| ==> t[i].Valid() && p(t[i])
    ensures forall k :: 0 <= k < i ==> !(t[k].Valid() && p(t[k]))
  {
    FirstFrom(t, p, 0)
  }

  function FirstFrom(t: Table, p: RAMBlock -> bool, start: nat): (i: nat)
    requires start <= |t|
    ensures start <= i <= |t|
    ensures i < |t| ==> t[i].Valid() && p(t[i])
    ensures forall k :: start <= k < i ==> !(t[k].Valid() && p(t[k]))
    decreases |t| - start
  {
    if start == |t| then start
    else if t[start].Valid() && p(t[start]) then start
    else FirstFrom(t, p, start + 1)
  }

  /** Index of the first unused slot at or after `start`, or `|t|`. */
  function FirstInvalid(t: Table, start: nat): (i: nat)
    requires start <= |t|
    ensures start <= i <= |t|
    ensures i < |t| ==> !t[i].Valid()
    ensures forall k :: start <= k < i ==> t[k].Valid()
    decreases |t| - start
  {
    if start == |t| then start
    else if !t[start].Valid() then start
    else FirstInvalid(t, start + 1)
  }

  /** Last index below `n` whose record relates to `b` by `code`, or -1. */
  function LastMerge(t: Table, b: RAMBlock, code: int, n: nat): (i: int)
    requires n <= |t|
    ensures -1 <= i < n
    ensures i >= 0 ==> b.IsMergable(t[i]) == code
    ensures forall k :: i < k < n ==> b.IsMergable(t[k]) != code
  {
    if n == 0 then -1
    else if b.IsMergable(t[n - 1]) == code then n - 1
    else LastMerge(t, b, code, n - 1)
  }

  function MergeBefore(t: Table, b: RAMBlock): (i: int)
    ensures -1 <= i < |t|
    ensures i >= 0 ==> b.IsMergable(t[i]) == 1
    ensures i < 0 ==> forall k :: 0 <= k < |t| ==> b.IsMergable(t[k]) != 1
  {
    LastMerge(t, b, 1, |t|)
  }

  function MergeAfter(t: Table, b: RAMBlock): (i: int)
    ensures -1 <= i < |t|
    ensures i >= 0 ==> b.IsMergable(t[i]) == -1
    ensures i < 0 ==> forall k :: 0 <= k < |t| ==> b.IsMergable(t[k]) != -1
  {
    LastMerge(t, b, -1, |t|)
  }

  /** `b` touches no record of its own kind, so it needs a slot of its own. */
  predicate Isolated(t: Table, b: RAMBlock) {
    b.Valid() && MergeBefore(t, b) < 0 && MergeAfter(t, b) < 0
  }

  /** `b` closes the gap between two records of its own kind. */
  predicate Bridges(t: Table, b: RAMBlock) {
    b.Valid() && MergeBefore(t, b) >= 0 && MergeAfter(t, b) >= 0
  }

  // ---- Inserting a record ----

  /** Writes `b` into the first unused slot; a full table is left alone. */
  function Put(t: Table, b: RAMBlock): Table {
    var i := FirstInvalid(t, 0);
    if i < |t| then t[i := b] else t
  }

  /** The table edit of `add`, without the resizing it may trigger. */
  function Insert(t: Table, b: RAMBlock): (r: Table)
    ensures |r| == |t|
    ensures !b.Valid() ==> r == t
  {
    if !b.Valid() then t
    else
      var l, r := MergeBefore(t, b), MergeAfter(t, b);
      if l >= 0 && r >= 0 then
        t[l := t[l].(size := t[l].size + b.size + t[r].size)][r := t[r].Invalidate()]
      else if l >= 0 then
        t[l := t[l].(size := t[l].size + b.size)]
      else if r >= 0 then
        t[r := t[r].(addr := b.addr, size := t[r].size + b.size)]
      else
        Put(t, b)
  }

  /** There is a slot for `b` if it needs one. */
  predicate Room(t: Table, b: RAMBlock) {
    Isolated(t, b) ==> Count(t) < |t|
  }

  lemma SlotExists(t: Table)
    requires Count(t) < |t|
    ensures FirstInvalid(t, 0) < |t|
  {
    CountFull(t);
  }

  lemma {:induction false} InsertCount(t: Table, b: RAMBlock)
    requires Room(t, b)
    ensures Bridges(t, b) ==> Count(Insert(t, b)) == Count(t) - 1
    ensures Isolated(t, b) ==> Count(Insert(t, b)) == Count(t) + 1
    ensures !Bridges(t, b) && !Isolated(t, b) ==> Count(Insert(t, b)) == Count(t)
  {
    if b.Valid() {
      var l, r := MergeBefore(t, b), MergeAfter(t, b);
      if l >= 0 && r >= 0 {
        var m := t[l].(size := t[l].size + b.size + t[r].size);
        CountUpdate(t, l, m);
        CountUpdate(t[l := m], r, t[r].Invalidate());
      } else if l >= 0 {
        CountUpdate(t, l, t[l].(size := t[l].size + b.size));
      } else if r >= 0 {
        CountUpdate(t, r, t[r].(addr := b.addr, size := t[r].size + b.size));
      } else {
        SlotExists(t);
        CountUpdate(t, FirstInvalid(t, 0), b);
      }
    }
  }

  /** What a table edit that adds the bytes of `b` must achieve: the new table is
      disjoint, stays coalesced, contains `b` and every old record inside records of
      the same kind, and changes the byte map on the bytes of `b` only. */
  ghost predicate Painted(t: Table, b: RAMBlock, t': Table) {
    && |t'| == |t|
    && Disjoint(t')
    && (forall a: nat {:trigger At(t', a)} :: At(t', a) == if b.Covers(a) then Ram(b.ty, b.used) else At(t, a))
    && (forall i {:trigger Holds(t', t[i].addr, t[i].End(), t[i].ty, t[i].used)} :: 0 <= i < |t| && t[i].Valid() ==>
          Holds(t', t[i].addr, t[i].End(), t[i].ty, t[i].used))
    && (b.Valid() ==> Holds(t', b.addr, b.End(), b.ty, b.used))
  }

  /** A block of the new table comes from `b` and old blocks it swallowed. */
  lemma PaintedBytes(t: Table, b: RAMBlock, t': Table)
    requires Disjoint(t) && Disjoint(t') && Fresh(t, b)
    requires forall i, a: nat :: In(t, i, a) ==> exists j :: In(t', j, a) && t'[j].SameKind(t[i])
    requires forall a: nat :: b.Covers(a) ==> exists j :: In(t', j, a) && t'[j].SameKind(b)
    requires forall j, a: nat :: In(t', j, a) ==> b.Covers(a) || exists i :: In(t, i, a)
    ensures forall a: nat :: At(t', a) == if b.Covers(a) then Ram(b.ty, b.used) else At(t, a)
  {
    forall a: nat
      ensures At(t', a) == if b.Covers(a) then Ram(b.ty, b.used) else At(t, a)
    {
      if b.Covers(a) {
        var j :| In(t', j, a) && t'[j].SameKind(b);
        AtIn(t', j, a);
      } else if i :| In(t, i, a) {
        var j :| In(t', j, a) && t'[j].SameKind(t[i]);
        AtIn(t', j, a);
        AtIn(t, i, a);
      }
    }
  }

  lemma InsertBridge(t: Table, b: RAMBlock)
    requires Disjoint(t) && Fresh(t, b) && Bridges(t, b)
    ensures Painted(t, b, Insert(t, b))
  {
    var l, r := MergeBefore(t, b), MergeAfter(t, b);
    var t' := Insert(t, b);
    var m := t'[l];
    assert Apart(t[l], t[r]);
    forall i, j | 0 <= i < |t'| && 0 <= j < |t'| && i != j
      ensures Apart(t'[i], t'[j])
    {
      assert Apart(t[i], t[j]);
      assert Apart(t[i], b) && Apart(t[j], b);
      assert i != r ==> Apart(t[i], t[r]);
      assert j != r ==> Apart(t[j], t[r]);
    }
    forall i, a: nat | In(t, i, a)
      ensures exists j :: In(t', j, a) && t'[j].SameKind(t[i])
    {
      if i == r || i == l { assert In(t', l, a); } else { assert In(t', i, a); }
    }
    forall a: nat | b.Covers(a)
      ensures exists j :: In(t', j, a) && t'[j].SameKind(b)
    {
      assert In(t', l, a);
    }
    forall j, a: nat | In(t', j, a)
      ensures b.Covers(a) || exists i :: In(t, i, a)
    {
      if j == l {
        assert In(t, l, a) || b.Covers(a) || In(t, r, a);
      } else {
        assert In(t, j, a);
      }
    }
    PaintedBytes(t, b, t');
    forall i | 0 <= i < |t| && t[i].Valid()
      ensures Holds(t', t[i].addr, t[i].End(), t[i].ty, t[i].used)
    {
      var k := if i == r then l else i;
      assert Houses(t'[k], t[i].addr, t[i].End(), t[i].ty, t[i].used);
    }
    assert Houses(t'[l], b.addr, b.End(), b.ty, b.used);
  }

  lemma InsertOne(t: Table, b: RAMBlock)
    requires Disjoint(t) && Fresh(t, b) && b.Valid() && Room(t, b) && !Bridges(t, b)
    ensures Painted(t, b, Insert(t, b))
  {
    var l, r := MergeBefore(t, b), MergeAfter(t, b);
    if l < 0 && r < 0 { SlotExists(t); }
    var k := if l >= 0 then l else if r >= 0 then r else FirstInvalid(t, 0);
    var t' := Insert(t, b);
    assert t' == t[k := t'[k]];
    forall i, j | 0 <= i < |t'| && 0 <= j < |t'| && i != j
      ensures Apart(t'[i], t'[j])
    {
      assert Apart(t[i], t[j]);
      assert Apart(t[i], b) && Apart(t[j], b);
    }
    forall i, a: nat | In(t, i, a)
      ensures exists j :: In(t', j, a) && t'[j].SameKind(t[i])
    {
      assert In(t', i, a);
    }
    forall a: nat | b.Covers(a)
      ensures exists j :: In(t', j, a) && t'[j].SameKind(b)
    {
      assert In(t', k, a);
    }
    forall j, a: nat | In(t', j, a)
      ensures b.Covers(a) || exists i :: In(t, i, a)
    {
      assert In(t, j, a) || b.Covers(a);
    }
    PaintedBytes(t, b, t');
    forall i | 0 <= i < |t| && t[i].Valid()
      ensures Holds(t', t[i].addr, t[i].End(), t[i].ty, t[i].used)
    {
      assert Houses(t'[i], t[i].addr, t[i].End(), t[i].ty, t[i].used);
    }
    assert Houses(t'[k], b.addr, b.End(), b.ty, b.used);
  }

  /** Inserting a record that overlaps nothing adds exactly its bytes. */
  lemma InsertPaints(t: Table, b: RAMBlock)
    requires Disjoint(t) && Fresh(t, b) && Room(t, b)
    ensures Painted(t, b, Insert(t, b))
  {
    if !b.Valid() {
      forall i | 0 <= i < |t| && t[i].Valid()
        ensures Holds(t, t[i].addr, t[i].End(), t[i].ty, t[i].used)
      {
        assert Houses(t[i], t[i].addr, t[i].End(), t[i].ty, t[i].used);
      }
    } else if Bridges(t, b) {
      InsertBridge(t, b);
    } else {
      InsertOne(t, b);
    }
  }

  /** Inserting merges on both sides, so a coalesced table stays coalesced. */
  lemma InsertCoalesced(t: Table, b: RAMBlock)
    requires Disjoint(t) && Fresh(t, b) && Room(t, b) && Coalesced(t)
    ensures Coalesced(Insert(t, b))
  {
    if b.Valid() {
      var l, r := MergeBefore(t, b), MergeAfter(t, b);
      if l < 0 && r < 0 { SlotExists(t); }
      var t' := Insert(t, b);
      forall i, j | 0 <= i < |t'| && 0 <= j < |t'|
        ensures t'[i].IsMergable(t'[j]) != -1
      {
        assert t[i].IsMergable(t[j]) != -1;
        assert r >= 0 ==> t[r].IsMergable(t[j]) != -1;
        assert l >= 0 ==> t[i].IsMergable(t[l]) != -1;
        assert b.IsMergable(t[j]) == -1 ==> r >= 0;
        assert b.IsMergable(t[i]) == 1 ==> l >= 0;
        assert Apart(t[j], b) && Apart(t[i], b);
        assert i != j ==> Apart(t[i], t[j]);
        assert r >= 0 && j != r ==> Apart(t[r], t[j]);
        assert l >= 0 && i != l ==> Apart(t[l], t[i]);
      }
    }
  }
}
