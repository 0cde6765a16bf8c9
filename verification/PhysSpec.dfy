/** The allocator operations as functions of the allocator state. The functions are
    not recursive: a resize is written with the plain table edits only. That the
    mutually recursive code computes the same is proved in PhysAlloc. */
module PhysSpec {
  import opened Align
  import opened RamTable
  import opened Repainting
  import opened Wrappers

  const BASE_RB_SIZE: nat := 128
  const MIN_REQ: nat := 4
  const RECORD_BYTES: nat := 24

  datatype OwnedPtr = OwnedPtr(addr: nat, size: nat) {
    function End(): nat { addr + size }
    predicate Covers(a: nat) { addr <= a < End() }
    predicate Clear(other: OwnedPtr) { End() <= other.addr || other.End() <= addr }
  }

  datatype AllocParams = AllocParams(
    addr: Option<nat>, size: nat, align: nat, fromType: RAMType, asType: RAMType, used: bool)
  {
    function Build(page: nat): AllocParams {
      this.(addr := if addr.Some? then Some(AlignUp(addr.value, align)) else None,
            size := SizeAlign(size, page))
    }
  }

  function NewParams(size: nat, page: nat): AllocParams {
    AllocParams(None, size, page, Conv, Conv, true)
  }

  /** The records, the storage the table itself occupies, and the page size. */
  datatype AllocState = AllocState(blocks: Table, ptr: OwnedPtr, page: nat)

  function TableBytes(n: nat, page: nat): nat {
    SizeAlign(n * RECORD_BYTES, page)
  }

  // ---- Searches ----

  function FreeFilter(args: AllocParams): RAMBlock -> bool {
    (b: RAMBlock) => !b.used && AlignUp(b.addr, args.align) + args.size <= b.End() && b.ty == args.fromType
  }

  function FindFreeRam(t: Table, args: AllocParams, page: nat): Option<OwnedPtr> {
    var args := args.Build(page);
    var i := First(t, FreeFilter(args));
    if i == |t| then None else Some(OwnedPtr(AlignUp(t[i].addr, args.align), args.size))
  }

  function HostFilter(ty: RAMType, p: OwnedPtr): RAMBlock -> bool {
    (b: RAMBlock) => !b.used && ty == b.ty && p.addr >= b.addr && p.End() <= b.End()
  }

  function SatSub(x: nat, y: nat): nat { if x >= y then x - y else 0 }

  /** The start of `b` leaves room for `size` bytes that do not reach the request `p`. */
  predicate StartClear(b: RAMBlock, size: nat, align: nat, p: OwnedPtr) {
    b.End() <= p.addr || b.addr >= p.End() || SatSub(p.addr, AlignUp(b.addr, align)) >= size
  }

  function PlaceFilter(size: nat, align: nat, p: OwnedPtr): RAMBlock -> bool {
    (b: RAMBlock) =>
      && !b.used && b.ty == Conv
      && ((AlignUp(b.addr, align) + size <= b.End() && StartClear(b, size, align, p))
          || (AlignUp(p.End(), align) >= b.addr && SatSub(b.End(), AlignUp(p.End(), align)) >= size))
  }

  /** Where `expand` puts the new table while the request `p` is pending. */
  function Placement(t: Table, size: nat, align: nat, p: OwnedPtr): Option<OwnedPtr> {
    var i := First(t, PlaceFilter(size, align, p));
    if i == |t| then None
    else if StartClear(t[i], size, align, p) then Some(OwnedPtr(AlignUp(t[i].addr, align), size))
    else Some(OwnedPtr(AlignUp(p.End(), align), size))
  }

  // ---- Edits that never resize the table ----

  function Before(from: RAMBlock, p: OwnedPtr): RAMBlock
    requires from.addr <= p.addr
  {
    RAMBlock(from.addr, p.addr - from.addr, from.ty, false)
  }

  function After(from: RAMBlock, p: OwnedPtr): RAMBlock
    requires p.End() <= from.End()
  {
    RAMBlock(p.End(), from.End() - p.End(), from.ty, false)
  }

  /** The table of `alloc` just before its last `add`, if some record hosts `p`. */
  function Split(t: Table, args: AllocParams, p: OwnedPtr): Option<Table> {
    var i := First(t, HostFilter(args.fromType, p));
    if i == |t| then None
    else if t[i].ty == args.asType && !args.used then None
    else Some(Insert(Insert(t[i := t[i].Invalidate()], Before(t[i], p)), After(t[i], p)))
  }

  function AllocHere(t: Table, args: AllocParams, p: OwnedPtr): Option<Table> {
    var s := Split(t, args, p);
    if s.None? then None
    else Some(Insert(s.value, RAMBlock(p.addr, p.size, args.asType, args.used)))
  }

  function FreeHere(t: Table, p: OwnedPtr): Table {
    Repaint(t, p.addr, p.End(), Conv, false)
  }

  // ---- Resizing ----

  function Grown(n: nat): nat {
    if 2 * n > n + MIN_REQ then 2 * n else n + MIN_REQ
  }

  function Halved(n: nat): nat {
    if n / 2 > BASE_RB_SIZE then n / 2 else BASE_RB_SIZE
  }

  function Padding(n: nat): Table { seq(n, _ => INVALID) }

  function ExpandF(st: AllocState, newMax: nat, p: OwnedPtr): Option<AllocState> {
    if newMax <= |st.blocks| then Some(st)
    else
      var r := Placement(st.blocks, TableBytes(newMax, st.page), st.page, p);
      if r.None? then None
      else
        var args := NewParams(newMax * RECORD_BYTES, st.page).Build(st.page);
        var t := AllocHere(st.blocks + Padding(newMax - |st.blocks|), args, r.value);
        if t.None? then None
        else Some(AllocState(FreeHere(t.value, st.ptr), r.value, st.page))
  }

  /** Moves the valid records of `t[n..j]`, last first, into unused slots of
      `t[slot..n]`; false if the slots run out. */
  function Compact(t: Table, n: nat, j: nat, slot: nat): (r: (Table, bool))
    requires slot <= n <= j <= |t|
    ensures |r.0| == |t|
    decreases j
  {
    if j == n then (t, true)
    else if !t[j - 1].Valid() then Compact(t, n, j - 1, slot)
    else
      var s := FirstInvalid(t[..n], slot);
      if s == n then (t, false)
      else Compact(t[s := t[j - 1]][j - 1 := t[j - 1].Invalidate()], n, j - 1, s + 1)
  }

  /** The range `shrink` returns to the free memory when it keeps `n` records. */
  function ShrinkFreed(ptr: OwnedPtr, n: nat, page: nat): OwnedPtr {
    OwnedPtr(AlignUp(ptr.addr + TableBytes(n, page), page), SatSub(ptr.size, TableBytes(n, page)))
  }

  function ShrinkF(st: AllocState, newMax: nat): AllocState {
    if newMax >= |st.blocks| || newMax < Count(st.blocks) || newMax < MIN_REQ then st
    else
      var (t, moved) := Compact(st.blocks, newMax, |st.blocks|, 0);
      var freed := ShrinkFreed(st.ptr, newMax, st.page);
      if !moved || freed.size == 0 then st.(blocks := t)
      else AllocState(FreeHere(t[..newMax], freed), OwnedPtr(st.ptr.addr, TableBytes(newMax, st.page)), st.page)
  }

  // ---- The operations ----

  predicate Grows(t: Table, b: RAMBlock) { Isolated(t, b) && Count(t) >= |t| }

  predicate Sparse(t: Table, b: RAMBlock) {
    Bridges(t, b) && Count(Insert(t, b)) <= |t| / 4
  }

  /** Adding `b` makes `add` call `expand` or `shrink`. */
  predicate Resizes(t: Table, b: RAMBlock) { Grows(t, b) || Sparse(t, b) }

  /** `None` is the panic of a failed expansion. */
  function AddF(st: AllocState, b: RAMBlock): Option<AllocState> {
    if Grows(st.blocks, b) then
      var e := ExpandF(st, Grown(|st.blocks|), OwnedPtr(b.addr, b.size));
      if e.None? then None else Some(e.value.(blocks := Put(e.value.blocks, b)))
    else Some(AddQuiet(st, b))
  }

  /** `add` when the table has a slot for `b`. */
  function AddQuiet(st: AllocState, b: RAMBlock): AllocState {
    var st1 := st.(blocks := Insert(st.blocks, b));
    if Sparse(st.blocks, b) then ShrinkF(st1, Halved(|st.blocks|)) else st1
  }

  function FreeF(st: AllocState, p: OwnedPtr): Option<AllocState> {
    var s1 := AddF(st.(blocks := Carve(st.blocks, p.addr, p.End())), LeftPart(st.blocks, p.addr, p.End()));
    if s1.None? then None else
    var s2 := AddF(s1.value, RightPart(st.blocks, p.addr, p.End()));
    if s2.None? then None else
    AddF(s2.value, RAMBlock(p.addr, p.size, Conv, false))
  }

  /** The range a request asks for: the given address, or the first fit. */
  function Target(t: Table, args: AllocParams, page: nat): Option<OwnedPtr> {
    if args.addr.Some? then Some(OwnedPtr(args.addr.value, args.size)) else FindFreeRam(t, args, page)
  }

  predicate Crowded(t: Table) { Count(t) + MIN_REQ > |t| }

  function MakeRoom(st: AllocState, p: OwnedPtr): Option<AllocState> {
    if Crowded(st.blocks) then ExpandF(st, Grown(|st.blocks|), p) else Some(st)
  }

  function AllocF(st: AllocState, params: AllocParams): (AllocState, Option<OwnedPtr>) {
    var args := params.Build(st.page);
    if NonRam(args.fromType) || NonRam(args.asType) then (st, None)
    else
      var p := Target(st.blocks, args, st.page);
      if p.None? then (st, None)
      else
        var st1 := MakeRoom(st, p.value);
        if st1.None? then (st, None)
        else
          var t := Split(st1.value.blocks, args, p.value);
          if t.None? then (st1.value, None)
          else (AddQuiet(st1.value.(blocks := t.value),
                         RAMBlock(p.value.addr, p.value.size, args.asType, args.used)), p)
  }

  // ---- The invariant ----

  /** Table sizes of at least `BASE_RB_SIZE` records round to whole pages. */
  ghost predicate WholePages(page: nat) {
    forall n: nat {:trigger TableBytes(n, page)} :: n >= BASE_RB_SIZE ==> Aligned(TableBytes(n, page), page)
  }

  ghost predicate Layout(st: AllocState) {
    && BasePage(st.page) && WholePages(st.page)
    && |st.blocks| >= BASE_RB_SIZE
    && st.ptr.size == TableBytes(|st.blocks|, st.page)
    && Aligned(st.ptr.addr, st.page)
  }

  /** The table's own storage lies inside one used record of conventional memory. */
  ghost predicate Hosted(st: AllocState) {
    Holds(st.blocks, st.ptr.addr, st.ptr.End(), Conv, true)
  }

  ghost predicate Sound(st: AllocState) {
    Layout(st) && Disjoint(st.blocks) && Hosted(st)
  }

  ghost predicate Inv(st: AllocState) {
    Sound(st) && Coalesced(st.blocks)
  }

  /** What every operation does to the byte map: the new table storage is used
      conventional memory, taken from the old storage or from free conventional
      memory; what is left of the old storage is free; the bytes of `b`, if any, have
      the kind of `b`; every other byte keeps its status. */
  ghost predicate Changed(st: AllocState, b: RAMBlock, st': AllocState) {
    && st'.page == st.page
    && (forall a: nat {:trigger At(st'.blocks, a)} :: At(st'.blocks, a) ==
          if st'.ptr.Covers(a) then Ram(Conv, true)
          else if b.Covers(a) then Ram(b.ty, b.used)
          else if st.ptr.Covers(a) then Ram(Conv, false)
          else At(st.blocks, a))
    && (forall a: nat {:trigger At(st.blocks, a)} ::
          st'.ptr.Covers(a) && !st.ptr.Covers(a) ==> At(st.blocks, a) == Ram(Conv, false))
  }

  ghost predicate Moved(st: AllocState, st': AllocState) {
    Changed(st, INVALID, st')
  }
}
