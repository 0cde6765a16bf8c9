/** The relocated image word by word, in terms of the raw words of the relocation entries and
    of the symbol table. */
module RelocWords {
  import opened Reloc

  /** Word `i` of the image. */
  function WordAt(img: Image, i: nat): Word { if i < |img| then img[i] else 0 }

  // ---- The dynamic section ----

  /** The tag and the value of entry `j` of the dynamic section, two words each. */
  function DynTag(img: Image, loc: Loc, j: nat): Word { WordAt(img, loc.dyn / 8 + 2 * j) }
  function DynVal(img: Image, loc: Loc, j: nat): Word { WordAt(img, loc.dyn / 8 + 2 * j + 1) }

  /** The section stops at its first entry with tag 0, or at its length. */
  ghost predicate Stops(img: Image, loc: Loc, stop: nat) {
    && stop <= loc.len
    && (stop < loc.len ==> DynTag(img, loc, stop) == 0)
    && forall j: nat :: j < stop ==> DynTag(img, loc, j) != 0
  }

  /** Entry `j` is the last one with its tag. */
  ghost predicate LastTag(img: Image, loc: Loc, stop: nat, j: nat) {
    j < stop && forall i: nat :: j < i < stop ==> DynTag(img, loc, i) != DynTag(img, loc, j)
  }

  lemma DynWords(img: Image, loc: Loc, j: nat)
    requires loc.dyn % 8 == 0
    ensures Tagged(img, loc, j) == DynTag(img, loc, j)
    ensures Read(img, loc.dyn + 16 * j + 8) == DynVal(img, loc, j)
  {
    assert (loc.dyn + 16 * j) / 8 == loc.dyn / 8 + 2 * j && (loc.dyn + 16 * j + 8) / 8 == loc.dyn / 8 + 2 * j + 1;
  }

  lemma StopsEnds(img: Image, loc: Loc, stop: nat)
    requires loc.dyn % 8 == 0 && Stops(img, loc, stop)
    ensures Ends(img, loc, stop)
  {
    hide DynTag, Read;
    DynWords(img, loc, stop);
    forall j: nat | j < stop ensures Tagged(img, loc, j) != DT_NULL { DynWords(img, loc, j); }
  }

  /** The scan finds the relocation entries under tag 7, their size under tag 8 and the symbol
      table under tag 6, each in the last entry with that tag. */
  lemma ScanFinds(img: Image, loc: Loc, stop: nat, j: nat)
    requires loc.dyn % 8 == 0 && Stops(img, loc, stop) && LastTag(img, loc, stop, j)
    ensures DynTag(img, loc, j) == 7 ==> Scan(img, loc).rela == DynVal(img, loc, j)
    ensures DynTag(img, loc, j) == 8 ==> Scan(img, loc).relasz == DynVal(img, loc, j)
    ensures DynTag(img, loc, j) == 6 ==> Scan(img, loc).symtab == DynVal(img, loc, j)
  {
    hide DynTag, DynVal, Read, ScanFrom, Ends;
    var tag := DynTag(img, loc, j);
    if tag == 6 || tag == 7 || tag == 8 {
      StopsEnds(img, loc, stop);
      DynWords(img, loc, j);
      forall i: nat | j + 1 <= i < stop ensures Tagged(img, loc, i) != tag { DynWords(img, loc, i); }
      ScanLast(img, loc, stop, tag, 0, Tables(0, 0, 0, 0), j);
    }
  }

  /** Without such an entry the field stays zero; in particular there is then nothing to do. */
  lemma ScanMisses(img: Image, loc: Loc, stop: nat)
    requires loc.dyn % 8 == 0 && Stops(img, loc, stop)
    ensures (forall i: nat :: i < stop ==> DynTag(img, loc, i) != 8) ==> Scan(img, loc).relasz == 0
  {
    hide DynTag, Read, ScanFrom, Ends;
    if forall i: nat :: i < stop ==> DynTag(img, loc, i) != 8 {
      StopsEnds(img, loc, stop);
      forall i: nat | i < stop ensures Tagged(img, loc, i) != 8 { DynWords(img, loc, i); }
      ScanNone(img, loc, stop, 8, 0, Tables(0, 0, 0, 0));
    }
  }

  // ---- The relocation entries ----

  /** The first `n` entries, of three words each, lie in the image. */
  predicate Table(img: Image, t: Tables, n: nat) {
    t.rela % 8 == 0 && t.rela / 8 + 3 * n <= |img|
  }

  /** Entry `j` is of a relocated type and its first word names the cell `k`. */
  predicate NamesCell(img: Image, arch: Arch, t: Tables, j: nat, k: nat) {
    var ty := WordAt(img, t.rela / 8 + 3 * j + 1) % 0x1_0000_0000;
    && WordAt(img, t.rela / 8 + 3 * j) / 8 == k
    && match arch
       case Amd64 => ty == 8 || ty == 1 || ty == 6 || ty == 7
       case Aarch64 => ty == 1027 || ty == 257 || ty == 1025 || ty == 1026
  }

  /** The value of symbol `idx`: the second word of its record of three. */
  function SymbolValue(img: Image, t: Tables, idx: nat): Word {
    WordAt(img, (t.symtab + 24 * idx + 8) / 8)
  }

  /** The link-time address entry `j` asks for: the addend, which is its signed third word,
      and for the symbolic types the value of the symbol in the upper half of the second. */
  function Goal(img: Image, arch: Arch, t: Tables, j: nat): int {
    var info, addend := WordAt(img, t.rela / 8 + 3 * j + 1), Signed(WordAt(img, t.rela / 8 + 3 * j + 2));
    var relative := match arch
                    case Amd64 => info % 0x1_0000_0000 == 8
                    case Aarch64 => info % 0x1_0000_0000 == 1027;
    if relative then addend else SymbolValue(img, t, info / 0x1_0000_0000) + addend
  }

  /** How many of the first `n` entries name the cell. */
  function Namings(img: Image, arch: Arch, t: Tables, n: nat, k: nat): nat {
    if n == 0 then 0 else Namings(img, arch, t, n - 1, k) + if NamesCell(img, arch, t, n - 1, k) then 1 else 0
  }

  /** Of the first `n` entries, `j` is the last to name the cell. */
  ghost predicate LastNaming(img: Image, arch: Arch, t: Tables, n: nat, j: nat, k: nat) {
    && j < n && NamesCell(img, arch, t, j, k)
    && forall i: nat :: j < i < n ==> !NamesCell(img, arch, t, i, k)
  }

  lemma EntryWords(img: Image, t: Tables, j: nat)
    requires Table(img, t, j + 1)
    ensures Entry(img, t, j) ==
              Rela(WordAt(img, t.rela / 8 + 3 * j), WordAt(img, t.rela / 8 + 3 * j + 1),
                   WordAt(img, t.rela / 8 + 3 * j + 2))
  {
    var at := t.rela / 8 + 3 * j;
    assert (t.rela + 24 * j) / 8 == at && (t.rela + 24 * j + 8) / 8 == at + 1 && (t.rela + 24 * j + 16) / 8 == at + 2;
  }

  /** The work of an entry, from its words. */
  lemma PatchWords(img: Image, arch: Arch, t: Tables, j: nat, k: nat)
    requires Table(img, t, j + 1)
    ensures |PatchOf(img, arch, t, j)| <= 1
    ensures NamesCell(img, arch, t, j, k) <==>
              |PatchOf(img, arch, t, j)| == 1 && PatchOf(img, arch, t, j)[0].cell == k
    ensures NamesCell(img, arch, t, j, k) ==> PatchOf(img, arch, t, j)[0].target == Goal(img, arch, t, j)
  {
    EntryWords(img, t, j);
    hide Entry, Signed;
  }

  lemma {:induction false} CountNamings(img: Image, arch: Arch, t: Tables, n: nat, k: nat)
    requires Table(img, t, n)
    ensures Times(PatchesTo(img, arch, t, n), k) == Namings(img, arch, t, n, k)
  {
    hide PatchOf, NamesCell, Times;
    if n > 0 {
      CountNamings(img, arch, t, n - 1, k);
      PatchWords(img, arch, t, n - 1, k);
      TimesSplit(PatchesTo(img, arch, t, n - 1), PatchOf(img, arch, t, n - 1), k);
    } else {
      assert Times([], k) == 0 by { TimesNone(k); }
    }
  }

  lemma LastSplit(ps: seq<Patch>, one: seq<Patch>, k: nat)
    requires |one| <= 1 && Times(ps + one, k) > 0
    ensures |one| == 1 && one[0].cell == k ==> LastTarget(ps + one, k) == one[0].target
    ensures !(|one| == 1 && one[0].cell == k) ==> Times(ps, k) > 0 && LastTarget(ps + one, k) == LastTarget(ps, k)
  {
    if |one| == 1 {
      assert (ps + one)[..|ps + one| - 1] == ps;
    } else {
      assert ps + one == ps;
    }
  }

  lemma {:induction false} LastGoal(img: Image, arch: Arch, t: Tables, n: nat, j: nat, k: nat)
    requires Table(img, t, n) && LastNaming(img, arch, t, n, j, k)
    ensures Times(PatchesTo(img, arch, t, n), k) > 0
    ensures LastTarget(PatchesTo(img, arch, t, n), k) == Goal(img, arch, t, j)
    decreases n
  {
    hide PatchOf, NamesCell, Times, LastTarget, Goal;
    var ps, one := PatchesTo(img, arch, t, n - 1), PatchOf(img, arch, t, n - 1);
    PatchWords(img, arch, t, n - 1, k);
    TimesSplit(ps, one, k);
    if j < n - 1 {
      LastGoal(img, arch, t, n - 1, j, k);
    }
    LastSplit(ps, one, k);
  }

  lemma {:induction false} NoNaming(img: Image, arch: Arch, t: Tables, n: nat, k: nat)
    ensures Namings(img, arch, t, n, k) == 0 <==> forall j: nat :: j < n ==> !NamesCell(img, arch, t, j, k)
  {
    hide NamesCell;
    if n > 0 { NoNaming(img, arch, t, n - 1, k); }
  }

  lemma LaidTable(img: Image, loc: Loc)
    requires Laid(img, loc)
    ensures Table(img, Scan(img, loc), Scan(img, loc).relasz / 24)
  {
    hide Scan, EntryLaid;
  }

  // ---- After loading ----

  /** After loading at `kbase`, a cell holds the base plus what the last entry that names it
      asks for, modulo the word size. */
  lemma LoadedCell(img: Image, loc: Loc, kbase: nat, j: nat, k: nat)
    requires Laid(img, loc) && k < |img|
    requires LastNaming(img, loc.arch, Scan(img, loc), Scan(img, loc).relasz / 24, j, k)
    ensures Place(img, kbase, Patches(img, loc))[k] == Wrap(kbase + Goal(img, loc.arch, Scan(img, loc), j))
  {
    hide *;
    LastOf(img, loc, j, k);
    PlaceWord(img, kbase, Patches(img, loc), k);
  }

  lemma LastOf(img: Image, loc: Loc, j: nat, k: nat)
    requires Laid(img, loc) && LastNaming(img, loc.arch, Scan(img, loc), Scan(img, loc).relasz / 24, j, k)
    ensures Times(Patches(img, loc), k) > 0
    ensures LastTarget(Patches(img, loc), k) == Goal(img, loc.arch, Scan(img, loc), j)
  {
    LaidTable(img, loc);
    hide Scan, Laid, LastNaming, Goal, PatchesTo, Times, LastTarget, Table;
    LastGoal(img, loc.arch, Scan(img, loc), Scan(img, loc).relasz / 24, j, k);
  }

  /** A word that no entry names keeps its value. */
  lemma LoadedOther(img: Image, loc: Loc, kbase: nat, k: nat)
    requires Laid(img, loc) && k < |img|
    requires forall j: nat :: j < Scan(img, loc).relasz / 24 ==> !NamesCell(img, loc.arch, Scan(img, loc), j, k)
    ensures Place(img, kbase, Patches(img, loc))[k] == img[k]
  {
    LaidTable(img, loc);
    hide Scan, Laid, NamesCell, Place, PatchesTo, Times;
    var t := Scan(img, loc);
    NoNaming(img, loc.arch, t, t.relasz / 24, k);
    CountNamings(img, loc.arch, t, t.relasz / 24, k);
    PlaceWord(img, kbase, Patches(img, loc), k);
  }

  // ---- After moving to the upper half ----

  /** Up to the move, the running kernel has not written to its tables and relocated cells. */
  ghost predicate Intact(loaded: Image, running: Image, img: Image, loc: Loc) {
    && |running| == |loaded|
    && (forall k: nat :: k < |loaded| && Meta(img, loc, k) ==> running[k] == loaded[k])
    && (forall k: nat, j: nat {:trigger NamesCell(img, loc.arch, Scan(img, loc), j, k)} ::
          k < |loaded| && j < Scan(img, loc).relasz / 24 && NamesCell(img, loc.arch, Scan(img, loc), j, k) ==>
          running[k] == loaded[k])
  }

  lemma IntactUntouched(loaded: Image, running: Image, img: Image, loc: Loc)
    requires Laid(img, loc) && Intact(loaded, running, img, loc)
    ensures Untouched(loaded, running, img, loc)
  {
    LaidTable(img, loc);
    hide Scan, Meta, NamesCell, PatchesTo, Times, Table;
    var t := Scan(img, loc);
    forall k: nat | k < |loaded| && (Meta(img, loc, k) || Times(Patches(img, loc), k) > 0)
      ensures running[k] == loaded[k]
    {
      CountNamings(img, loc.arch, t, t.relasz / 24, k);
      NoNaming(img, loc.arch, t, t.relasz / 24, k);
    }
  }

  lemma CellsOf(img: Image, loc: Loc, k: nat)
    requires Laid(img, loc)
    ensures Times(Patches(img, loc), k) == Namings(img, loc.arch, Scan(img, loc), Scan(img, loc).relasz / 24, k)
  {
    LaidTable(img, loc);
    hide Scan, Laid, Namings, PatchesTo, Times, Table;
    CountNamings(img, loc.arch, Scan(img, loc), Scan(img, loc).relasz / 24, k);
  }

  /** A word of the moved image: the running kernel's, shifted once per entry that names it. */
  lemma MovedWord(img: Image, running: Image, loc: Loc, base: nat, delta: int, k: nat)
    requires Laid(img, loc) && k < |img|
    requires Untouched(Place(img, base, Patches(img, loc)), running, img, loc)
    ensures |running| == |img|
    ensures Shift(running, delta, Patches(running, loc))[k] ==
              Wrap(running[k] + Times(Patches(img, loc), k) * delta)
    ensures Times(Patches(img, loc), k) > 0 ==> running[k] == Place(img, base, Patches(img, loc))[k]
  {
    hide Patches, Laid, Place, Wrap, Times, Shift, Meta;
    RunningCells(img, running, loc, base);
    ShiftWord(running, delta, Patches(img, loc), k);
  }

  /** After loading at `base` and moving to `target`, a cell holds the new base plus what
      its entry asks for; entries that name it again each add the distance once more. */
  lemma MovedCell(img: Image, running: Image, loc: Loc, base: nat, target: nat, j: nat, k: nat)
    requires Laid(img, loc) && k < |img|
    requires Intact(Place(img, base, Patches(img, loc)), running, img, loc)
    requires LastNaming(img, loc.arch, Scan(img, loc), Scan(img, loc).relasz / 24, j, k)
    ensures var t := Scan(img, loc);
            var m := Namings(img, loc.arch, t, t.relasz / 24, k);
            && m > 0
            && Shift(running, target - base, Patches(running, loc))[k] ==
                 Wrap(target + Goal(img, loc.arch, t, j) + (m - 1) * (target - base))
  {
    hide Scan, Laid, LastNaming, Goal, Place, Wrap, Patches, Times, Shift, Intact, Namings, Untouched;
    IntactUntouched(Place(img, base, Patches(img, loc)), running, img, loc);
    MovedWord(img, running, loc, base, target - base, k);
    LoadedCell(img, loc, base, j, k);
    CellsOf(img, loc, k);
    var t := Scan(img, loc);
    var m := Namings(img, loc.arch, t, t.relasz / 24, k);
    assert m > 0 by { SomeNaming(img, loc.arch, t, t.relasz / 24, j, k); }
    Surplus(base, target, Goal(img, loc.arch, t, j), m);
  }

  lemma SomeNaming(img: Image, arch: Arch, t: Tables, n: nat, j: nat, k: nat)
    requires LastNaming(img, arch, t, n, j, k)
    ensures Namings(img, arch, t, n, k) > 0
  {
    hide NamesCell, Namings;
    NoNaming(img, arch, t, n, k);
  }

  lemma Surplus(base: nat, target: nat, goal: int, m: nat)
    ensures Wrap(Wrap(base + goal) + m * (target - base)) == Wrap(target + goal + (m - 1) * (target - base))
  {
    WrapAdd(base + goal, m * (target - base));
    hide Wrap;
    assert m * (target - base) == (target - base) + (m - 1) * (target - base);
  }

  /** Every other word is the running kernel's. */
  lemma MovedOther(img: Image, running: Image, loc: Loc, base: nat, target: nat, k: nat)
    requires Laid(img, loc) && k < |img|
    requires Intact(Place(img, base, Patches(img, loc)), running, img, loc)
    requires forall j: nat :: j < Scan(img, loc).relasz / 24 ==> !NamesCell(img, loc.arch, Scan(img, loc), j, k)
    ensures |running| == |img| && Shift(running, target - base, Patches(running, loc))[k] == running[k]
  {
    hide Scan, Laid, NamesCell, Place, Wrap, Patches, Times, Shift, Intact, Namings, Untouched;
    IntactUntouched(Place(img, base, Patches(img, loc)), running, img, loc);
    MovedWord(img, running, loc, base, target - base, k);
    CellsOf(img, loc, k);
    NoNaming(img, loc.arch, Scan(img, loc), Scan(img, loc).relasz / 24, k);
    WrapWord(running[k]);
  }
}
