/** Kernel relocation in two stages. The boot loader relocates the image at the base where
    it was loaded; the running kernel copies itself and moves every relocated cell by the
    distance to the upper half. An image is a sequence of 64-bit words: all tables and cells
    are accessed through pointers that must be aligned to eight bytes. */
module Reloc {

  type Word = x: int | 0 <= x < 0x1_0000_0000_0000_0000
  type Image = seq<Word>

  const DT_NULL := 0
  const DT_STRTAB := 5
  const DT_SYMTAB := 6
  const DT_RELA := 7
  const DT_RELASZ := 8

  function Wrap(x: int): Word { x % 0x1_0000_0000_0000_0000 }

  function Signed(w: Word): int {
    if w < 0x8000_0000_0000_0000 then w else w - 0x1_0000_0000_0000_0000
  }

  datatype Arch = Amd64 | Aarch64 {
    function Rel(): nat { if Amd64? then 8 else 1027 }
    function Sym(): set<nat> { if Amd64? then {1, 6, 7} else {257, 1025, 1026} }
  }

  /** Where the dynamic section is, as passed from the loader to the kernel. */
  datatype Loc = Loc(arch: Arch, dyn: nat, len: nat)

  /** What the scan of the dynamic section collects. */
  datatype Tables = Tables(rela: Word, relasz: Word, symtab: Word, strtab: Word) {
    function Entries(): nat { relasz / 24 }
  }

  datatype Rela = Rela(offset: Word, info: Word, addend: Word) {
    function Type(): nat { info % 0x1_0000_0000 }
    function SymIdx(): nat { info / 0x1_0000_0000 }
  }

  /** A cell to relocate (as a word index) and its link-time target. */
  datatype Patch = Patch(cell: nat, target: int)

  function Read(img: Image, at: nat): Word {
    if at / 8 < |img| then img[at / 8] else 0
  }

  // ---- The dynamic section ----

  function Record(t: Tables, tag: Word, val: Word): Tables {
    if tag == DT_RELA then t.(rela := val)
    else if tag == DT_RELASZ then t.(relasz := val)
    else if tag == DT_SYMTAB then t.(symtab := val)
    else if tag == DT_STRTAB then t.(strtab := val)
    else t
  }

  function ScanFrom(img: Image, loc: Loc, i: nat, t: Tables): Tables
    decreases loc.len - i
  {
    if i >= loc.len then t
    else
      var tag := Read(img, loc.dyn + 16 * i);
      if tag == DT_NULL then t
      else ScanFrom(img, loc, i + 1, Record(t, tag, Read(img, loc.dyn + 16 * i + 8)))
  }

  function Scan(img: Image, loc: Loc): Tables {
    ScanFrom(img, loc, 0, Tables(0, 0, 0, 0))
  }

  function Field(t: Tables, tag: Word): Word
    requires tag in {DT_RELA, DT_RELASZ, DT_SYMTAB, DT_STRTAB}
  {
    if tag == DT_RELA then t.rela
    else if tag == DT_RELASZ then t.relasz
    else if tag == DT_SYMTAB then t.symtab
    else t.strtab
  }

  /** `stop` is where the section ends: its first null entry, or its length. */
  ghost predicate Ends(img: Image, loc: Loc, stop: nat) {
    && stop <= loc.len
    && (stop < loc.len ==> Read(img, loc.dyn + 16 * stop) == DT_NULL)
    && forall j: nat :: j < stop ==> Tagged(img, loc, j) != DT_NULL
  }

  function Tagged(img: Image, loc: Loc, j: nat): Word { Read(img, loc.dyn + 16 * j) }

  /** No entry from `i` up to the end carries the tag. */
  ghost predicate NoneTagged(img: Image, loc: Loc, i: nat, stop: nat, tag: Word) {
    forall k: nat :: i <= k < stop ==> Tagged(img, loc, k) != tag
  }

  lemma {:induction false} ScanNone(img: Image, loc: Loc, stop: nat, tag: Word, i: nat, t: Tables)
    requires tag in {DT_RELA, DT_RELASZ, DT_SYMTAB, DT_STRTAB}
    requires Ends(img, loc, stop) && i <= stop && NoneTagged(img, loc, i, stop, tag)
    ensures Field(ScanFrom(img, loc, i, t), tag) == Field(t, tag)
    decreases stop - i
  {
    hide Read;
    if i < stop {
      assert Tagged(img, loc, i) != DT_NULL && Tagged(img, loc, i) != tag;
      ScanNone(img, loc, stop, tag, i + 1, Record(t, Tagged(img, loc, i), Read(img, loc.dyn + 16 * i + 8)));
    }
  }

  /** The scan keeps, for each tag, the value of the last entry before the section's end. */
  lemma {:induction false} ScanLast(img: Image, loc: Loc, stop: nat, tag: Word, i: nat, t: Tables, j: nat)
    requires tag in {DT_RELA, DT_RELASZ, DT_SYMTAB, DT_STRTAB}
    requires Ends(img, loc, stop) && i <= j < stop && Tagged(img, loc, j) == tag
    requires NoneTagged(img, loc, j + 1, stop, tag)
    ensures Field(ScanFrom(img, loc, i, t), tag) == Read(img, loc.dyn + 16 * j + 8)
    decreases stop - i
  {
    hide Read;
    assert Tagged(img, loc, i) != DT_NULL;
    var t1 := Record(t, Tagged(img, loc, i), Read(img, loc.dyn + 16 * i + 8));
    if i == j {
      ScanNone(img, loc, stop, tag, i + 1, t1);
    } else {
      ScanLast(img, loc, stop, tag, i + 1, t1, j);
    }
  }

  // ---- The relocation entries ----

  function Entry(img: Image, t: Tables, j: nat): Rela {
    Rela(Read(img, t.rela + 24 * j), Read(img, t.rela + 24 * j + 8), Read(img, t.rela + 24 * j + 16))
  }

  function SymAt(t: Tables, e: Rela): nat { t.symtab + 24 * e.SymIdx() + 8 }

  predicate Patched(arch: Arch, e: Rela) { e.Type() == arch.Rel() || e.Type() in arch.Sym() }

  /** The work of one relocation entry, if any. */
  function PatchOf(img: Image, arch: Arch, t: Tables, j: nat): seq<Patch> {
    var e := Entry(img, t, j);
    if e.Type() == arch.Rel() then [Patch(e.offset / 8, Signed(e.addend))]
    else if e.Type() in arch.Sym() then [Patch(e.offset / 8, Read(img, SymAt(t, e)) + Signed(e.addend))]
    else []
  }

  function PatchesTo(img: Image, arch: Arch, t: Tables, n: nat): seq<Patch> {
    if n == 0 then [] else PatchesTo(img, arch, t, n - 1) + PatchOf(img, arch, t, n - 1)
  }

  function Patches(img: Image, loc: Loc): seq<Patch> {
    var t := Scan(img, loc);
    PatchesTo(img, loc.arch, t, t.Entries())
  }

  /** Relocation for `base`: every cell becomes the base plus its target. */
  function Place(img: Image, base: nat, ps: seq<Patch>): (r: Image)
    ensures |r| == |img|
  {
    if ps == [] then img
    else
      var prev := Place(img, base, ps[..|ps| - 1]);
      var p := ps[|ps| - 1];
      if p.cell < |img| then prev[p.cell := Wrap(base + p.target)] else prev
  }

  /** The second stage: every cell grows by `delta`. */
  function Shift(img: Image, delta: int, ps: seq<Patch>): (r: Image)
    ensures |r| == |img|
  {
    if ps == [] then img
    else
      var prev := Shift(img, delta, ps[..|ps| - 1]);
      var p := ps[|ps| - 1];
      if p.cell < |img| then prev[p.cell := Wrap(prev[p.cell] + delta)] else prev
  }

  // ---- What the words become ----

  function Times(ps: seq<Patch>, cell: nat): nat {
    if ps == [] then 0
    else Times(ps[..|ps| - 1], cell) + if ps[|ps| - 1].cell == cell then 1 else 0
  }

  /** The target of the last entry for a cell. */
  function LastTarget(ps: seq<Patch>, cell: nat): int
    requires Times(ps, cell) > 0
  {
    if ps[|ps| - 1].cell == cell then ps[|ps| - 1].target else LastTarget(ps[..|ps| - 1], cell)
  }

  lemma {:induction false} PlaceWord(img: Image, base: nat, ps: seq<Patch>, k: nat)
    requires k < |img|
    ensures Place(img, base, ps)[k] ==
            if Times(ps, k) > 0 then Wrap(base + LastTarget(ps, k)) else img[k]
  {
    if ps != [] {
      PlaceWord(img, base, ps[..|ps| - 1], k);
    }
  }

  lemma WrapAdd(x: int, y: int)
    ensures Wrap(Wrap(x) + y) == Wrap(x + y)
  {}

  lemma WrapWord(w: Word)
    ensures Wrap(w) == w
  {}

  lemma OneMore(x: int, n: nat, delta: int)
    ensures Wrap(Wrap(x + n * delta) + delta) == Wrap(x + (n + 1) * delta)
  {
    WrapAdd(x + n * delta, delta);
    hide Wrap;
    assert (n + 1) * delta == n * delta + delta;
  }

  lemma {:induction false} ShiftWord(img: Image, delta: int, ps: seq<Patch>, k: nat)
    requires k < |img|
    ensures Shift(img, delta, ps)[k] == Wrap(img[k] + Times(ps, k) * delta)
  {
    hide Wrap;
    if ps != [] {
      var init := ps[..|ps| - 1];
      ShiftWord(img, delta, init, k);
      if ps[|ps| - 1].cell == k {
        OneMore(img[k], Times(init, k), delta);
      }
    } else {
      WrapWord(img[k]);
    }
  }

  /** Relocating for `base` and then shifting: each cell ends at the base plus its target
      plus the distance once per entry that names it; every other word is left alone. */
  lemma TwoStageWord(img: Image, base: nat, delta: int, ps: seq<Patch>, k: nat)
    requires k < |img|
    ensures Shift(Place(img, base, ps), delta, ps)[k] ==
            if Times(ps, k) > 0 then Wrap(base + LastTarget(ps, k) + Times(ps, k) * delta) else img[k]
  {
    PlaceWord(img, base, ps, k);
    ShiftWord(Place(img, base, ps), delta, ps, k);
    if Times(ps, k) > 0 {
      WrapAdd(base + LastTarget(ps, k), Times(ps, k) * delta);
    }
  }

  /** No cell is named so often that the surplus shifts show. */
  ghost predicate OnceOnly(img: Image, ps: seq<Patch>, delta: int) {
    forall k: nat :: k < |img| && Times(ps, k) > 0 ==> Wrap((Times(ps, k) - 1) * delta) == 0
  }

  lemma WrapEqual(x: int, y: int)
    ensures Wrap(x) == Wrap(x + y) <==> Wrap(y) == 0
  {}

  /** Two stages equal one exactly when the surplus shifts vanish. */
  lemma TwoStagesAreOne(img: Image, base: nat, target: nat, ps: seq<Patch>)
    ensures Shift(Place(img, base, ps), target - base, ps) == Place(img, target, ps)
            <==> OnceOnly(img, ps, target - base)
  {
    var delta := target - base;
    var two, one := Shift(Place(img, base, ps), delta, ps), Place(img, target, ps);
    forall k: nat | k < |img|
      ensures two[k] == one[k] <==> (Times(ps, k) > 0 ==> Wrap((Times(ps, k) - 1) * delta) == 0)
    {
      TwoStageWord(img, base, delta, ps, k);
      PlaceWord(img, target, ps, k);
      if Times(ps, k) > 0 {
        var goal := target + LastTarget(ps, k);
        assert base + LastTarget(ps, k) + Times(ps, k) * delta == goal + (Times(ps, k) - 1) * delta;
        WrapEqual(goal, (Times(ps, k) - 1) * delta);
      }
    }
    if OnceOnly(img, ps, delta) {
      assert forall k :: 0 <= k < |two| ==> two[k] == one[k];
    }
  }

  /** Distinct cells are enough. */
  lemma DistinctOnce(img: Image, ps: seq<Patch>, delta: int)
    requires forall k: nat :: Times(ps, k) <= 1
    ensures OnceOnly(img, ps, delta)
  {}

  /** A cell named twice ends in the wrong place for every non-zero distance. */
  lemma TwiceIsWrong(img: Image, base: nat, target: nat, ps: seq<Patch>, k: nat)
    requires k < |img| && Times(ps, k) == 2 && base < target < base + 0x1_0000_0000_0000_0000
    ensures Shift(Place(img, base, ps), target - base, ps) != Place(img, target, ps)
  {
    TwoStagesAreOne(img, base, target, ps);
    assert Wrap((Times(ps, k) - 1) * (target - base)) == target - base;
  }

  // ---- The tables stay readable ----

  ghost predicate SymWord(img: Image, loc: Loc, t: Tables, k: nat) {
    exists j: nat :: j < t.Entries() && Entry(img, t, j).Type() in loc.arch.Sym()
                     && k == SymAt(t, Entry(img, t, j)) / 8
  }

  /** Words the relocation reads: the dynamic section, the entries and the symbols used. */
  ghost predicate Meta(img: Image, loc: Loc, k: nat) {
    var t := Scan(img, loc);
    || loc.dyn / 8 <= k < loc.dyn / 8 + 2 * loc.len
    || t.rela / 8 <= k < t.rela / 8 + 3 * t.Entries()
    || SymWord(img, loc, t, k)
  }

  ghost predicate EntryLaid(img: Image, loc: Loc, t: Tables, j: nat) {
    var e := Entry(img, t, j);
    && (Patched(loc.arch, e) ==> e.offset % 8 == 0 && e.offset / 8 < |img| && !Meta(img, loc, e.offset / 8))
    && (e.Type() in loc.arch.Sym() ==> SymAt(t, e) % 8 == 0 && SymAt(t, e) / 8 < |img|)
  }

  /** All tables and cells lie in the image, aligned, and no cell is part of a table. */
  ghost predicate Laid(img: Image, loc: Loc) {
    var t := Scan(img, loc);
    && loc.dyn % 8 == 0 && loc.dyn / 8 + 2 * loc.len <= |img|
    && t.rela % 8 == 0 && t.rela / 8 + 3 * t.Entries() <= |img|
    && forall j: nat :: j < t.Entries() ==> EntryLaid(img, loc, t, j)
  }

  /** Same tables, whatever the other words are. */
  ghost predicate SameMeta(img: Image, img': Image, loc: Loc) {
    && |img| == |img'|
    && forall k: nat :: k < |img| && Meta(img, loc, k) ==> img[k] == img'[k]
  }

  lemma {:induction false} ScanSame(img: Image, img': Image, loc: Loc, i: nat, t: Tables)
    requires Laid(img, loc) && SameMeta(img, img', loc)
    ensures ScanFrom(img', loc, i, t) == ScanFrom(img, loc, i, t)
    decreases loc.len - i
  {
    hide Record, SymWord, EntryLaid, Scan;
    if i < loc.len {
      var k := loc.dyn / 8 + 2 * i;
      assert Meta(img, loc, k) && Meta(img, loc, k + 1);
      assert (loc.dyn + 16 * i) / 8 == k && (loc.dyn + 16 * i + 8) / 8 == k + 1;
      ScanSame(img, img', loc, i + 1, Record(t, img[k], img[k + 1]));
    }
  }

  lemma EntrySame(img: Image, img': Image, loc: Loc, j: nat)
    requires Laid(img, loc) && SameMeta(img, img', loc) && j < Scan(img, loc).Entries()
    ensures Entry(img', Scan(img, loc), j) == Entry(img, Scan(img, loc), j)
  {
    hide Scan, SymWord, EntryLaid;
    var t := Scan(img, loc);
    var k := t.rela / 8 + 3 * j;
    assert Meta(img, loc, k) && Meta(img, loc, k + 1) && Meta(img, loc, k + 2);
    assert (t.rela + 24 * j) / 8 == k && (t.rela + 24 * j + 8) / 8 == k + 1 && (t.rela + 24 * j + 16) / 8 == k + 2;
  }

  lemma PatchSame(img: Image, img': Image, loc: Loc, j: nat)
    requires Laid(img, loc) && SameMeta(img, img', loc) && j < Scan(img, loc).Entries()
    ensures PatchOf(img', loc.arch, Scan(img, loc), j) == PatchOf(img, loc.arch, Scan(img, loc), j)
  {
    EntrySame(img, img', loc, j);
    hide Scan, Entry;
    var t := Scan(img, loc);
    var e := Entry(img, t, j);
    if e.Type() in loc.arch.Sym() {
      assert EntryLaid(img, loc, t, j);
      assert SymWord(img, loc, t, SymAt(t, e) / 8);
      assert Meta(img, loc, SymAt(t, e) / 8);
    }
  }

  lemma {:induction false} PatchesSame(img: Image, img': Image, loc: Loc, n: nat)
    requires Laid(img, loc) && SameMeta(img, img', loc) && n <= Scan(img, loc).Entries()
    ensures PatchesTo(img', loc.arch, Scan(img, loc), n) == PatchesTo(img, loc.arch, Scan(img, loc), n)
  {
    hide Scan, PatchOf, Laid, SameMeta;
    if n > 0 {
      PatchesSame(img, img', loc, n - 1);
      PatchSame(img, img', loc, n - 1);
    }
  }

  lemma {:induction false} CellsOffMeta(img: Image, loc: Loc, n: nat, k: nat)
    requires Laid(img, loc) && n <= Scan(img, loc).Entries()
    ensures Times(PatchesTo(img, loc.arch, Scan(img, loc), n), k) > 0 ==> !Meta(img, loc, k) && k < |img|
  {
    hide Scan, Meta, Laid, PatchOf, Times;
    if n > 0 {
      var t := Scan(img, loc);
      CellsOffMeta(img, loc, n - 1, k);
      CellOffMeta(img, loc, n - 1, k);
      TimesSplit(PatchesTo(img, loc.arch, t, n - 1), PatchOf(img, loc.arch, t, n - 1), k);
    } else {
      assert Times([], k) == 0 by { TimesNone(k); }
    }
  }

  /** The cell of a single entry is no part of a table. */
  lemma CellOffMeta(img: Image, loc: Loc, j: nat, k: nat)
    requires Laid(img, loc) && j < Scan(img, loc).Entries()
    ensures var one := PatchOf(img, loc.arch, Scan(img, loc), j);
            |one| <= 1 && (|one| == 1 && one[0].cell == k ==> !Meta(img, loc, k) && k < |img|)
  {
    hide Scan, Meta, Entry, SymAt, Read, Signed, Rela.Type;
    assert EntryLaid(img, loc, Scan(img, loc), j);
  }

  lemma TimesNone(k: nat)
    ensures Times([], k) == 0
  {}

  lemma TimesSplit(ps: seq<Patch>, one: seq<Patch>, k: nat)
    requires |one| <= 1
    ensures Times(ps + one, k) == Times(ps, k) + if |one| == 1 && one[0].cell == k then 1 else 0
  {
    if |one| == 1 {
      assert (ps + one)[..|ps + one| - 1] == ps;
    } else {
      assert ps + one == ps;
    }
  }

  /** Any prefix of the relocation leaves the tables as they were. */
  lemma PlaceKeeps(img: Image, loc: Loc, base: nat, n: nat)
    requires Laid(img, loc) && n <= Scan(img, loc).Entries()
    ensures SameMeta(img, Place(img, base, PatchesTo(img, loc.arch, Scan(img, loc), n)), loc)
  {
    hide Scan, Meta, Laid;
    var ps := PatchesTo(img, loc.arch, Scan(img, loc), n);
    forall k: nat | k < |img| && Meta(img, loc, k) ensures img[k] == Place(img, base, ps)[k] {
      CellsOffMeta(img, loc, n, k);
      PlaceWord(img, base, ps, k);
    }
  }

  /** The kernel finds the same cells in the relocated image as the loader did, also after
      other words have changed in between. */
  lemma SameCells(img: Image, img': Image, loc: Loc)
    requires Laid(img, loc) && SameMeta(img, img', loc)
    ensures Patches(img', loc) == Patches(img, loc)
  {
    ScanSame(img, img', loc, 0, Tables(0, 0, 0, 0));
    PatchesSame(img, img', loc, Scan(img, loc).Entries());
  }

  lemma MetaSame(img: Image, img': Image, loc: Loc, k: nat)
    requires Laid(img, loc) && SameMeta(img, img', loc)
    ensures Meta(img', loc, k) <==> Meta(img, loc, k)
  {
    ScanSame(img, img', loc, 0, Tables(0, 0, 0, 0));
    var t := Scan(img, loc);
    assert Scan(img', loc) == t;
    hide Scan, Entry;
    forall j: nat | j < t.Entries() ensures Entry(img', t, j) == Entry(img, t, j) {
      EntrySame(img, img', loc, j);
    }
    assert SymWord(img', loc, t, k) <==> SymWord(img, loc, t, k);
  }

  /** The second stage can run on any image that still has the tables. */
  lemma LaidKept(img: Image, img': Image, loc: Loc)
    requires Laid(img, loc) && SameMeta(img, img', loc)
    ensures Laid(img', loc)
  {
    ScanSame(img, img', loc, 0, Tables(0, 0, 0, 0));
    var t := Scan(img, loc);
    assert Scan(img', loc) == t;
    hide Scan, Entry, Meta, SameMeta;
    forall j: nat | j < t.Entries() ensures EntryLaid(img', loc, t, j) {
      EntrySame(img, img', loc, j);
      assert EntryLaid(img, loc, t, j);
      MetaSame(img, img', loc, Entry(img, t, j).offset / 8);
      SameSize(img, img', loc);
    }
    SameSize(img, img', loc);
  }

  lemma SameSize(img: Image, img': Image, loc: Loc)
    requires SameMeta(img, img', loc)
    ensures |img| == |img'|
  {}

  /** The image of the running kernel still has its relocated cells and its tables. */
  ghost predicate Untouched(loaded: Image, running: Image, img: Image, loc: Loc) {
    && |running| == |loaded|
    && forall k: nat :: k < |loaded| && (Meta(img, loc, k) || Times(Patches(img, loc), k) > 0)
                        ==> running[k] == loaded[k]
  }

  /** The whole way: load at `base`, run, copy and shift to `target`. With distinct cells,
      each cell ends as `target` plus its link-time target and every other word is the
      running kernel's. */
  lemma LoadThenMove(img: Image, running: Image, loc: Loc, base: nat, target: nat, k: nat)
    requires Laid(img, loc) && k < |img|
    requires Untouched(Place(img, base, Patches(img, loc)), running, img, loc)
    requires Times(Patches(img, loc), k) <= 1
    ensures Shift(running, target - base, Patches(running, loc))[k] ==
            if Times(Patches(img, loc), k) > 0 then Wrap(target + LastTarget(Patches(img, loc), k)) else running[k]
  {
    hide Scan, Meta, Laid, PatchesTo, Wrap, Place, Shift;
    var ps := Patches(img, loc);
    RunningCells(img, running, loc, base);
    hide Patches;
    ShiftWord(running, target - base, ps, k);
    PlaceWord(img, base, ps, k);
    if Times(ps, k) > 0 {
      assert Times(ps, k) * (target - base) == target - base;
      WrapAdd(base + LastTarget(ps, k), target - base);
    } else {
      WrapWord(running[k]);
    }
  }

  lemma RunningCells(img: Image, running: Image, loc: Loc, base: nat)
    requires Laid(img, loc)
    requires Untouched(Place(img, base, Patches(img, loc)), running, img, loc)
    ensures Laid(running, loc) && Patches(running, loc) == Patches(img, loc)
  {
    PlaceKeeps(img, loc, base, Scan(img, loc).Entries());
    hide Scan, Meta, Laid, PatchesTo, Place;
    assert SameMeta(img, running, loc);
    SameCells(img, running, loc);
    LaidKept(img, running, loc);
  }

  /** A target inside the address space above `target` overflows in neither stage. */
  lemma NoOverflow(base: nat, hihalf: nat, goal: nat)
    requires base <= hihalf && hihalf + goal < 0x1_0000_0000_0000_0000
    ensures Wrap(base + goal) + (hihalf - base) == hihalf + goal
    ensures Wrap(hihalf + goal) == hihalf + goal
  {}

  // ---- The two programs ----

  /** The loader's scan of the dynamic section. */
  method ScanLoaded(image: array<Word>, loc: Loc) returns (t: Tables)
    requires loc.dyn % 8 == 0 && loc.dyn / 8 + 2 * loc.len <= image.Length
    ensures t == Scan(image[..], loc)
  {
    t := Tables(0, 0, 0, 0);
    for i := 0 to loc.len
      invariant ScanFrom(image[..], loc, i, t) == Scan(image[..], loc)
    {
      var at := loc.dyn / 8 + 2 * i;
      var tag, val := image[at], image[at + 1];
      assert (loc.dyn + 16 * i) / 8 == at && (loc.dyn + 16 * i + 8) / 8 == at + 1;
      if tag == DT_NULL { return; }
      if tag == DT_RELA { t := t.(rela := val); }
      else if tag == DT_RELASZ { t := t.(relasz := val); }
      else if tag == DT_SYMTAB { t := t.(symtab := val); }
      else if tag == DT_STRTAB { t := t.(strtab := val); }
    }
  }

  function PlaceOne(now: Image, base: nat, one: seq<Patch>): Image {
    if one == [] || one[0].cell >= |now| then now else now[one[0].cell := Wrap(base + one[0].target)]
  }

  function ShiftOne(now: Image, delta: int, one: seq<Patch>): Image {
    if one == [] || one[0].cell >= |now| then now else now[one[0].cell := Wrap(now[one[0].cell] + delta)]
  }

  /** Entry `i` can be read, and so can its symbol; its cell can be written. */
  predicate Fits(now: Image, arch: Arch, t: Tables, i: nat) {
    && t.rela % 8 == 0 && t.rela / 8 + 3 * i + 2 < |now|
    && var e := Entry(now, t, i);
       && (Patched(arch, e) ==> e.offset / 8 < |now|)
       && (e.Type() in arch.Sym() ==> SymAt(t, e) / 8 < |now|)
  }

  method ReadEntry(image: array<Word>, rela: Word, ghost t: Tables, i: nat) returns (e: Rela)
    requires rela == t.rela && rela % 8 == 0 && rela / 8 + 3 * i + 2 < image.Length
    ensures e == Entry(image[..], t, i)
  {
    var at := rela / 8 + 3 * i;
    assert (rela + 24 * i) / 8 == at && (rela + 24 * i + 8) / 8 == at + 1 && (rela + 24 * i + 16) / 8 == at + 2;
    e := Rela(image[at], image[at + 1], image[at + 2]);
  }

  method PlaceEntry(image: array<Word>, arch: Arch, t: Tables, kbase: nat, i: nat)
    requires Fits(image[..], arch, t, i)
    modifies image
    ensures image[..] == PlaceOne(old(image[..]), kbase, PatchOf(old(image[..]), arch, t, i))
  {
    var e := ReadEntry(image, t.rela, t, i);
    hide Entry, Wrap, Signed, SymAt;
    ghost var now := image[..];
    if e.Type() == arch.Rel() {
      image[e.offset / 8] := Wrap(kbase + Signed(e.addend));
    } else if e.Type() in arch.Sym() {
      var value := image[SymAt(t, e) / 8];
      assert value == Read(now, SymAt(t, e));
      assert kbase + value + Signed(e.addend) == kbase + (value + Signed(e.addend));
      image[e.offset / 8] := Wrap(kbase + value + Signed(e.addend));
    }
  }

  /** The loader: relocate the image in place, reading the entries from the image itself. */
  method Load(image: array<Word>, loc: Loc, kbase: nat)
    requires Laid(image[..], loc)
    modifies image
    ensures image[..] == Place(old(image[..]), kbase, Patches(old(image[..]), loc))
  {
    ghost var img := image[..];
    var t := ScanLoaded(image, loc);
    hide Scan, Laid, SameMeta, Meta, PatchesTo, Place, PlaceOne, PatchOf, Fits;
    StartAt(img, loc, kbase, 0);
    var n := t.Entries();
    for i := 0 to n
      invariant image[..] == Place(img, kbase, PatchesTo(img, loc.arch, t, i))
    {
      PlaceKeeps(img, loc, kbase, i);
      PlaceNext(img, image[..], loc, kbase, i);
      PlaceEntry(image, loc.arch, t, kbase, i);
    }
  }

  lemma StartAt(img: Image, loc: Loc, base: nat, delta: int)
    ensures Place(img, base, PatchesTo(img, loc.arch, Scan(img, loc), 0)) == img
    ensures Shift(img, delta, PatchesTo(img, loc.arch, Scan(img, loc), 0)) == img
  {}

  lemma EntryFits(img: Image, loc: Loc, i: nat)
    requires Laid(img, loc) && i < Scan(img, loc).Entries()
    ensures Fits(img, loc.arch, Scan(img, loc), i)
  {
    hide Scan, Meta, Entry;
    assert EntryLaid(img, loc, Scan(img, loc), i);
  }

  /** What is read from the partly relocated image is what the original holds. */
  lemma PlaceNext(img: Image, now: Image, loc: Loc, base: nat, i: nat)
    requires Laid(img, loc) && SameMeta(img, now, loc) && i < Scan(img, loc).Entries()
    requires now == Place(img, base, PatchesTo(img, loc.arch, Scan(img, loc), i))
    ensures Fits(now, loc.arch, Scan(img, loc), i)
    ensures Place(img, base, PatchesTo(img, loc.arch, Scan(img, loc), i + 1)) ==
            PlaceOne(now, base, PatchOf(now, loc.arch, Scan(img, loc), i))
  {
    var t := Scan(img, loc);
    EntrySame(img, now, loc, i);
    PatchSame(img, now, loc, i);
    EntryFits(img, loc, i);
    hide Scan, Meta, Entry, Laid, PatchOf;
    PlaceMore(img, base, PatchesTo(img, loc.arch, t, i), PatchOf(img, loc.arch, t, i));
  }

  lemma PlaceMore(img: Image, base: nat, ps: seq<Patch>, one: seq<Patch>)
    requires |one| <= 1
    ensures Place(img, base, ps + one) == PlaceOne(Place(img, base, ps), base, one)
  {
    if |one| == 1 {
      assert (ps + one)[..|ps + one| - 1] == ps;
    } else {
      assert ps + one == ps;
    }
  }

  lemma PatchesMore(img: Image, loc: Loc, i: nat)
    ensures PatchesTo(img, loc.arch, Scan(img, loc), i + 1) ==
            PatchesTo(img, loc.arch, Scan(img, loc), i) + PatchOf(img, loc.arch, Scan(img, loc), i)
    ensures |PatchOf(img, loc.arch, Scan(img, loc), i)| <= 1
  {}

  lemma ShiftMore(img: Image, delta: int, ps: seq<Patch>, one: seq<Patch>)
    requires |one| <= 1
    ensures Shift(img, delta, ps + one) == ShiftOne(Shift(img, delta, ps), delta, one)
  {
    if |one| == 1 {
      assert (ps + one)[..|ps + one| - 1] == ps;
    } else {
      assert ps + one == ps;
    }
  }

  /** The kernel's scan, which looks for the entries only. */
  method ScanRunning(image: array<Word>, loc: Loc) returns (rela: Word, size: Word)
    requires loc.dyn % 8 == 0 && loc.dyn / 8 + 2 * loc.len <= image.Length
    ensures rela == Scan(image[..], loc).rela && size == Scan(image[..], loc).relasz
  {
    rela, size := 0, 0;
    ghost var t := Tables(0, 0, 0, 0);
    for i := 0 to loc.len
      invariant ScanFrom(image[..], loc, i, t) == Scan(image[..], loc)
      invariant rela == t.rela && size == t.relasz
    {
      var at := loc.dyn / 8 + 2 * i;
      var tag, val := image[at], image[at + 1];
      assert (loc.dyn + 16 * i) / 8 == at && (loc.dyn + 16 * i + 8) / 8 == at + 1;
      if tag == DT_NULL { return; }
      if tag == DT_RELA { rela := val; }
      else if tag == DT_RELASZ { size := val; }
      t := Record(t, tag, val);
    }
  }

  method ShiftEntry(image: array<Word>, copy: array<Word>, arch: Arch, rela: Word, ghost t: Tables, delta: int, i: nat)
    requires rela == t.rela && Fits(image[..], arch, t, i) && copy.Length == image.Length && copy != image
    modifies copy
    ensures copy[..] == ShiftOne(old(copy[..]), delta, PatchOf(image[..], arch, t, i))
  {
    var e := ReadEntry(image, rela, t, i);
    hide Entry, Wrap, Signed, SymAt;
    if e.Type() == arch.Rel() || e.Type() in arch.Sym() {
      copy[e.offset / 8] := Wrap(copy[e.offset / 8] + delta);
    }
  }

  /** The kernel: copy the running image, then shift the cells of the copy. The entries are
      read from the running image. */
  method Move(image: array<Word>, copy: array<Word>, loc: Loc, delta: int)
    requires Laid(image[..], loc) && copy.Length == image.Length && copy != image
    modifies copy
    ensures copy[..] == Shift(image[..], delta, Patches(image[..], loc))
  {
    ghost var img := image[..];
    CopyAll(image, copy);
    var rela, size := ScanRunning(image, loc);
    hide Scan, Laid, Meta, PatchesTo, Shift, ShiftOne, PatchOf, Fits, Entry;
    StartAt(img, loc, 0, delta);
    for i := 0 to size / 24
      invariant copy[..] == Shift(img, delta, PatchesTo(img, loc.arch, Scan(img, loc), i))
    {
      ghost var t := Scan(img, loc);
      EntryFits(img, loc, i);
      PatchesMore(img, loc, i);
      ShiftMore(img, delta, PatchesTo(img, loc.arch, t, i), PatchOf(img, loc.arch, t, i));
      ShiftEntry(image, copy, loc.arch, rela, t, delta, i);
    }
  }

  method CopyAll(image: array<Word>, copy: array<Word>)
    requires copy.Length == image.Length && copy != image
    modifies copy
    ensures copy[..] == image[..]
  {
    for i := 0 to image.Length
      invariant copy[..i] == image[..i]
    {
      copy[i] := image[i];
    }
  }
}
