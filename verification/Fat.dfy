/** The FAT reader: cluster chains, the byte array a chain denotes, and the read loop. */
module Fat {
  import opened Align
  import opened BlockIo
  import opened Wrappers

  /** What the reader takes from the boot parameter block. */
  datatype Bpb = Bpb(
    bytsPerSec: nat, secPerClus: nat, rsvdSecCnt: nat, numFats: nat, rootEntCnt: nat,
    totSec: nat, fatSz: nat, is32: bool)
  {
    predicate Valid() { bytsPerSec > 0 && secPerClus > 0 }
    function ClusterSize(): nat { bytsPerSec * secPerClus }
  }

  datatype FatType = Fat12 | Fat16 | Fat32

  function RootDirSectors(bpb: Bpb): nat
    requires bpb.Valid()
  {
    (bpb.rootEntCnt * 32 + (bpb.bytsPerSec - 1)) / bpb.bytsPerSec
  }

  function MetaSectors(bpb: Bpb): nat
    requires bpb.Valid()
  {
    bpb.rsvdSecCnt + bpb.numFats * bpb.fatSz + RootDirSectors(bpb)
  }

  /** Data clusters; the subtraction and the 16-bit root size must not overflow. */
  function ClustCnt(bpb: Bpb): Option<nat>
    requires bpb.Valid()
  {
    if bpb.rootEntCnt * 32 + (bpb.bytsPerSec - 1) >= 0x10000 || MetaSectors(bpb) > bpb.totSec then None
    else Some((bpb.totSec - MetaSectors(bpb)) / bpb.secPerClus)
  }

  function TypeOf(bpb: Bpb): Option<FatType>
    requires bpb.Valid()
  {
    if bpb.is32 then Some(Fat32)
    else
      var n := ClustCnt(bpb);
      if n.None? then None else if n.value <= 4084 then Some(Fat12) else Some(Fat16)
  }

  /** The rule of section "FAT Type Determination" of the Microsoft FAT32 File System
      Specification: the cluster count alone decides. */
  function TypeByCount(n: nat): FatType {
    if n < 4085 then Fat12 else if n < 65525 then Fat16 else Fat32
  }

  /** The reader decides by the 16-bit FAT size field first. It agrees with the rule
      exactly on volumes where that field is zero just for the large counts. */
  lemma TypeRule(bpb: Bpb)
    requires bpb.Valid() && ClustCnt(bpb).Some?
    ensures TypeOf(bpb) == Some(TypeByCount(ClustCnt(bpb).value)) <==>
              (bpb.is32 <==> ClustCnt(bpb).value >= 65525)
  {}

  /** A small volume whose 16-bit size field is zero is read as FAT32, and a large one
      whose field is set as FAT16. */
  lemma TypeDisagrees()
    ensures var small := Bpb(512, 1, 32, 2, 0, 1000, 1, true);
            TypeOf(small) == Some(Fat32) && ClustCnt(small) == Some(966) && TypeByCount(966) == Fat12
    ensures var large := Bpb(512, 1, 1, 2, 512, 100833, 400, false);
            TypeOf(large) == Some(Fat16) && ClustCnt(large) == Some(100000) && TypeByCount(100000) == Fat32
  {}

  function Clust2Sct(bpb: Bpb, clust: nat): nat
    requires bpb.Valid() && clust >= 2
  {
    MetaSectors(bpb) + (clust - 2) * bpb.secPerClus
  }

  // ---- The allocation table ----

  function FatOffset(ty: FatType, clust: nat): nat {
    match ty
    case Fat12 => clust + clust / 2
    case Fat16 => 2 * clust
    case Fat32 => 4 * clust
  }

  function Width(ty: FatType): nat { if ty == Fat32 then 4 else 2 }

  function LittleEndian(raw: seq<byte>): nat {
    if raw == [] then 0 else raw[0] + 256 * LittleEndian(raw[1..])
  }

  function Entry(ty: FatType, clust: nat, raw: nat): nat {
    match ty
    case Fat12 => if clust % 2 == 0 then raw % 0x1000 else raw / 16
    case Fat16 => raw
    case Fat32 => raw % 0x10000000
  }

  predicate IsEnd(ty: FatType, entry: nat) {
    match ty
    case Fat12 => entry >= 0x0ff8
    case Fat16 => entry >= 0xfff8
    case Fat32 => entry >= 0x0ffffff8
  }

  /** Next cluster, end of chain (also on a read error), or a panic. */
  datatype Next = Link(clust: nat) | End | Panic

  function NextFrom(ty: FatType, clust: nat, raw: seq<byte>): (n: Next)
    ensures n != Panic
  {
    var e := Entry(ty, clust, LittleEndian(raw));
    if IsEnd(ty, e) then End else Link(e)
  }

  /** The sector that holds the start of a cluster's entry. */
  function FatSector(bpb: Bpb, ty: FatType, clust: nat): nat
    requires bpb.Valid()
  {
    bpb.rsvdSecCnt + FatOffset(ty, clust) / bpb.bytsPerSec
  }

  /** Where in that sector the entry starts. */
  function EntOffset(bpb: Bpb, ty: FatType, clust: nat): nat
    requires bpb.Valid()
  {
    FatOffset(ty, clust) % bpb.bytsPerSec
  }

  /** `next_clust`: one sector of the table is read and the entry taken from it. */
  function NextClust(bpb: Bpb, ty: FatType, blocks: seq<seq<byte>>, clust: nat): Next
    requires bpb.Valid()
  {
    var sct, ent := FatSector(bpb, ty, clust), EntOffset(bpb, ty, clust);
    if sct >= |blocks| then End
    else if ent + Width(ty) > |blocks[sct]| then Panic
    else NextFrom(ty, clust, blocks[sct][ent..ent + Width(ty)])
  }

  /** The table read as one byte array, wherever sector boundaries fall. */
  function NextByTable(bpb: Bpb, ty: FatType, flat: seq<byte>, clust: nat): (n: Next)
    ensures n != Panic
  {
    var at := bpb.rsvdSecCnt * bpb.bytsPerSec + FatOffset(ty, clust);
    if at + Width(ty) > |flat| then End
    else NextFrom(ty, clust, flat[at..at + Width(ty)])
  }

  predicate Straddles(bpb: Bpb, ty: FatType, clust: nat)
    requires bpb.Valid()
  {
    EntOffset(bpb, ty, clust) + Width(ty) > bpb.bytsPerSec
  }

  ghost predicate Blocks(blocks: seq<seq<byte>>, bs: nat) {
    forall i :: 0 <= i < |blocks| ==> |blocks[i]| == bs
  }

  /** Reading one sector gives the table entry if and only if the entry does not
      straddle two sectors; a straddling entry within the device panics. */
  lemma NextClustIff(bpb: Bpb, ty: FatType, blocks: seq<seq<byte>>, clust: nat)
    requires bpb.Valid() && Blocks(blocks, bpb.bytsPerSec)
    requires FatSector(bpb, ty, clust) < |blocks|
    ensures NextClust(bpb, ty, blocks, clust) == NextByTable(bpb, ty, Flatten(blocks, bpb.bytsPerSec), clust)
            <==> !Straddles(bpb, ty, clust)
    ensures NextClust(bpb, ty, blocks, clust) == Panic <==> Straddles(bpb, ty, clust)
  {
    hide *;
    if Straddles(bpb, ty, clust) { NextSplit(bpb, ty, blocks, clust); } else { NextWhole(bpb, ty, blocks, clust); }
  }

  lemma NextSplit(bpb: Bpb, ty: FatType, blocks: seq<seq<byte>>, clust: nat)
    requires bpb.Valid() && Blocks(blocks, bpb.bytsPerSec) && Straddles(bpb, ty, clust)
    requires FatSector(bpb, ty, clust) < |blocks|
    ensures NextClust(bpb, ty, blocks, clust) == Panic
    ensures NextByTable(bpb, ty, Flatten(blocks, bpb.bytsPerSec), clust) != Panic
  {
    hide Flatten, NextFrom, NextByTable, FatSector, EntOffset, Width;
    assert |blocks[FatSector(bpb, ty, clust)]| == bpb.bytsPerSec;
  }

  lemma NextWhole(bpb: Bpb, ty: FatType, blocks: seq<seq<byte>>, clust: nat)
    requires bpb.Valid() && Blocks(blocks, bpb.bytsPerSec) && !Straddles(bpb, ty, clust)
    requires FatSector(bpb, ty, clust) < |blocks|
    ensures NextClust(bpb, ty, blocks, clust) == NextByTable(bpb, ty, Flatten(blocks, bpb.bytsPerSec), clust) != Panic
  {
    EntrySlice(bpb, ty, blocks, clust);
    hide Flatten, NextFrom, NextClust, NextByTable, FatOffset, FatSector, EntOffset, Width, Straddles;
    SectorEntry(bpb, ty, blocks, clust);
    TableEntry(bpb, ty, Flatten(blocks, bpb.bytsPerSec), clust);
  }

  lemma SectorEntry(bpb: Bpb, ty: FatType, blocks: seq<seq<byte>>, clust: nat)
    requires bpb.Valid() && FatSector(bpb, ty, clust) < |blocks|
    requires EntOffset(bpb, ty, clust) + Width(ty) <= |blocks[FatSector(bpb, ty, clust)]|
    ensures var sector, ent := blocks[FatSector(bpb, ty, clust)], EntOffset(bpb, ty, clust);
            NextClust(bpb, ty, blocks, clust) == NextFrom(ty, clust, sector[ent..ent + Width(ty)])
  {
    hide NextFrom, FatSector, EntOffset, Width;
  }

  lemma TableEntry(bpb: Bpb, ty: FatType, flat: seq<byte>, clust: nat)
    requires bpb.rsvdSecCnt * bpb.bytsPerSec + FatOffset(ty, clust) + Width(ty) <= |flat|
    ensures var at := bpb.rsvdSecCnt * bpb.bytsPerSec + FatOffset(ty, clust);
            NextByTable(bpb, ty, flat, clust) == NextFrom(ty, clust, flat[at..at + Width(ty)])
  {
    hide NextFrom, FatOffset, Width;
  }

  /** The flat table and the sector hold the same bytes for an entry. */
  lemma EntrySlice(bpb: Bpb, ty: FatType, blocks: seq<seq<byte>>, clust: nat)
    requires bpb.Valid() && Blocks(blocks, bpb.bytsPerSec) && !Straddles(bpb, ty, clust)
    requires FatSector(bpb, ty, clust) < |blocks|
    ensures var flat := Flatten(blocks, bpb.bytsPerSec);
            var at := bpb.rsvdSecCnt * bpb.bytsPerSec + FatOffset(ty, clust);
            var sector, ent := blocks[FatSector(bpb, ty, clust)], EntOffset(bpb, ty, clust);
            && at + Width(ty) <= |flat| && ent + Width(ty) <= |sector|
            && flat[at..at + Width(ty)] == sector[ent..ent + Width(ty)]
  {
    hide Flatten, FatOffset, Width;
    var bs, off := bpb.bytsPerSec, FatOffset(ty, clust);
    assert off == off / bs * bs + off % bs;
    RawSlice(blocks, bs, bpb.rsvdSecCnt, off / bs, off % bs, Width(ty), bpb.rsvdSecCnt * bs + off);
  }

  /** The entry of cluster 341 begins with the last byte of its sector. */
  lemma StraddleExample(bpb: Bpb, blocks: seq<seq<byte>>)
    requires bpb.Valid() && bpb.bytsPerSec == 512 && Blocks(blocks, 512) && bpb.rsvdSecCnt < |blocks|
    ensures NextClust(bpb, Fat12, blocks, 341) == Panic
    ensures NextByTable(bpb, Fat12, Flatten(blocks, 512), 341) != Panic
  {
    hide Flatten;
    assert FatOffset(Fat12, 341) == 511;
    NextClustIff(bpb, Fat12, blocks, 341);
  }

  lemma RawSlice(blocks: seq<seq<byte>>, bs: nat, rsvd: nat, q: nat, ent: nat, w: nat, at: nat)
    requires Blocks(blocks, bs) && rsvd + q < |blocks| && ent + w <= bs && at == rsvd * bs + q * bs + ent
    ensures at + w <= |Flatten(blocks, bs)| && Flatten(blocks, bs)[at..at + w] == blocks[rsvd + q][ent..ent + w]
  {
    hide Flatten;
    BlockAt(blocks, bs, rsvd, q);
    SliceSlice(Flatten(blocks, bs), rsvd * bs + q * bs, bs, ent, w);
  }

  /** Entries of FAT16 and FAT32 never straddle sectors of a size the format allows. */
  lemma NoStraddle(bpb: Bpb, ty: FatType, clust: nat)
    requires bpb.Valid() && ty != Fat12 && bpb.bytsPerSec % 4 == 0
    ensures !Straddles(bpb, ty, clust)
  {
    if ty == Fat16 {
      MultipleOffset(2 * clust, bpb.bytsPerSec, 2);
    } else {
      MultipleOffset(4 * clust, bpb.bytsPerSec, 4);
    }
  }

  /** Offsets and sector sizes that are multiples of the entry width keep entries whole. */
  lemma MultipleOffset(off: nat, bs: nat, w: nat)
    requires w > 0 && bs > 0 && off % w == 0 && bs % w == 0
    ensures off % bs + w <= bs
  {
    var m, k := off / w, bs / w;
    assert off == m * w && bs == k * w;
    assert k > 0;
    var q, r := m / k, m % k;
    assert m == q * k + r;
    assert m * w == q * (k * w) + r * w;
    MulGap(r, k, w);
    DivUnique(off, bs, q, r * w);
  }

  // ---- Chains ----

  /** A volume: parameters, FAT type, and the blocks of its device. */
  datatype Volume = Volume(bpb: Bpb, ty: FatType, blocks: seq<seq<byte>>) {
    ghost predicate Valid() {
      bpb.Valid() && Blocks(blocks, bpb.bytsPerSec)
    }
  }

  /** Cluster `n` of the chain that starts at `start`; chains may be cyclic. */
  function Chain(v: Volume, start: nat, n: nat): Option<nat>
    requires v.bpb.Valid()
  {
    if n == 0 then Some(start)
    else
      var c := Chain(v, start, n - 1);
      if c.None? then None
      else match NextClust(v.bpb, v.ty, v.blocks, c.value)
        case Link(d) => Some(d)
        case _ => None
  }

  lemma {:induction false} ChainEnds(v: Volume, start: nat, n: nat, m: nat)
    requires v.bpb.Valid() && n <= m && Chain(v, start, n).None?
    ensures Chain(v, start, m).None?
    decreases m
  {
    hide NextClust;
    if n < m { ChainEnds(v, start, n, m - 1); }
  }

  /** The cluster lies in the data area and on the device. */
  predicate OnDevice(v: Volume, clust: nat)
    requires v.bpb.Valid()
  {
    clust >= 2 && Clust2Sct(v.bpb, clust) + v.bpb.secPerClus <= |v.blocks|
  }

  /** The bytes of one cluster. */
  ghost function ClusterBytes(v: Volume, clust: nat): (b: seq<byte>)
    requires v.Valid() && OnDevice(v, clust)
    ensures |b| == v.bpb.ClusterSize()
  {
    ClusterInside(v, clust);
    var at := Clust2Sct(v.bpb, clust) * v.bpb.bytsPerSec;
    Flatten(v.blocks, v.bpb.bytsPerSec)[at..at + v.bpb.ClusterSize()]
  }

  lemma ClusterInside(v: Volume, clust: nat)
    requires v.Valid() && OnDevice(v, clust)
    ensures Clust2Sct(v.bpb, clust) * v.bpb.bytsPerSec + v.bpb.ClusterSize() <= |Flatten(v.blocks, v.bpb.bytsPerSec)|
  {
    hide Flatten, Clust2Sct;
    var bs, s := v.bpb.bytsPerSec, Clust2Sct(v.bpb, clust);
    MulLe(s + v.bpb.secPerClus, |v.blocks|, bs);
    assert (s + v.bpb.secPerClus) * bs == s * bs + v.bpb.secPerClus * bs;
    assert v.bpb.secPerClus * bs == bs * v.bpb.secPerClus;
  }

  /** Byte `pos` of the file: the concatenated clusters of its chain. */
  ghost function FileByte(v: Volume, start: nat, pos: nat): Option<byte>
    requires v.Valid()
  {
    SizePositive(v);
    var c := Chain(v, start, pos / v.bpb.ClusterSize());
    if c.None? || !OnDevice(v, c.value) then None
    else Some(ClusterBytes(v, c.value)[pos % v.bpb.ClusterSize()])
  }

  lemma SizePositive(v: Volume)
    requires v.Valid()
    ensures v.bpb.ClusterSize() > 0
    ensures DivCeil(v.bpb.ClusterSize(), v.bpb.bytsPerSec) == v.bpb.secPerClus
  {
    var b := v.bpb;
    WholeBlocks(b.secPerClus, b.bytsPerSec);
    assert b.secPerClus * b.bytsPerSec == b.ClusterSize();
  }

  /** `cur` is `was` with the first `done` bytes taken from the file at `offset`. */
  ghost predicate Filled(v: Volume, start: nat, offset: nat, was: seq<byte>, cur: seq<byte>, done: nat)
    requires v.Valid()
  {
    && |cur| == |was| && done <= |cur|
    && (forall i :: 0 <= i < done ==> FileByte(v, start, offset + i) == Some(cur[i]))
    && (forall i :: done <= i < |cur| ==> cur[i] == was[i])
  }

  /** What a read promises: file bytes where the file has them, the rest untouched. */
  ghost predicate ReadExactly(v: Volume, start: nat, offset: nat, was: seq<byte>, cur: seq<byte>)
    requires v.Valid()
  {
    |cur| == |was| &&
    forall i {:trigger cur[i]} :: 0 <= i < |cur| ==>
      cur[i] == var b := FileByte(v, start, offset + i); if b.Some? then b.value else was[i]
  }

  /** Offset of the `k`-th cluster of a file. */
  function ClustAt(k: nat, size: nat): nat { k * size }

  /** Index of the cluster that holds an offset. */
  function ClustOf(offset: nat, size: nat): nat
    requires size > 0
  {
    offset / size
  }

  /** Number of clusters a read passes: up to its first byte, or up to its last one. */
  function Visits(offset: nat, len: nat, size: nat): nat
    requires size > 0
  {
    if len == 0 then ClustOf(offset, size) else ClustOf(offset + len - 1, size) + 1
  }

  lemma ClustNext(k: nat, size: nat)
    ensures ClustAt(0, size) == 0 && ClustAt(k + 1, size) == ClustAt(k, size) + size
  {
    assert (k + 1) * size == k * size + size;
  }

  /** Copying part of cluster `k` continues the fill. */
  lemma FillMore(v: Volume, start: nat, offset: nat, was: seq<byte>, cur: seq<byte>, done: nat, k: nat, skip: nat,
                 n: nat)
    requires v.Valid() && Filled(v, start, offset, was, cur, done) && done + n <= |cur|
    requires Chain(v, start, k).Some? && OnDevice(v, Chain(v, start, k).value)
    requires offset + done == ClustAt(k, v.bpb.ClusterSize()) + skip && skip + n <= v.bpb.ClusterSize()
    ensures Filled(v, start, offset, was,
                   Overwrite(cur, done, ClusterBytes(v, Chain(v, start, k).value)[skip..skip + n]), done + n)
  {
    hide Chain, OnDevice, ClusterBytes, Bpb.ClusterSize;
    var chunk := ClusterBytes(v, Chain(v, start, k).value)[skip..skip + n];
    var cur' := Overwrite(cur, done, chunk);
    forall i | 0 <= i < done + n ensures FileByte(v, start, offset + i) == Some(cur'[i]) {
      if i >= done {
        assert cur'[i] == chunk[i - done];
        DivUnique(offset + i, v.bpb.ClusterSize(), k, skip + i - done);
      }
    }
  }

  /** When the chain ends behind the bytes read so far, the read is complete. */
  lemma FillDone(v: Volume, start: nat, offset: nat, was: seq<byte>, cur: seq<byte>, done: nat, k: nat)
    requires v.Valid() && Filled(v, start, offset, was, cur, done)
    requires done == |cur| || (Chain(v, start, k).None? && offset + done >= ClustAt(k, v.bpb.ClusterSize()))
    ensures ReadExactly(v, start, offset, was, cur)
  {
    hide Chain, OnDevice, ClusterBytes, Bpb.ClusterSize;
    SizePositive(v);
    forall i | 0 <= i < |cur|
      ensures cur[i] == var b := FileByte(v, start, offset + i); if b.Some? then b.value else was[i]
    {
      if i >= done {
        AtLeast(offset + i, k, v.bpb.ClusterSize());
        ChainEnds(v, start, k, (offset + i) / v.bpb.ClusterSize());
      }
    }
  }

  lemma AtLeast(x: nat, k: nat, m: nat)
    requires m > 0 && x >= k * m
    ensures x / m >= k
  {
    assert x == x / m * m + x % m;
    MulGap(x / m, k, m);
  }

  /** The table entries of the first `n` clusters of a chain can be read. */
  ghost predicate Smooth(v: Volume, start: nat, n: nat)
    requires v.Valid()
  {
    forall k: nat {:trigger Chain(v, start, k)} :: k < n && Chain(v, start, k).Some? ==>
      NextClust(v.bpb, v.ty, v.blocks, Chain(v, start, k).value) != Panic
  }

  /** The clusters `from..n` of a chain, as far as it goes, are on the device. */
  ghost predicate Loadable(v: Volume, start: nat, from: nat, n: nat)
    requires v.Valid()
  {
    forall k: nat {:trigger Chain(v, start, k)} :: from <= k < n && Chain(v, start, k).Some? ==>
      OnDevice(v, Chain(v, start, k).value)
  }

  /** Nothing that a read of `len` bytes at `offset` comes across is damaged. */
  ghost predicate Readable(v: Volume, start: nat, offset: nat, len: nat)
    requires v.Valid() && v.bpb.ClusterSize() > 0
  {
    var size := v.bpb.ClusterSize();
    && Smooth(v, start, Visits(offset, len, size))
    && Loadable(v, start, ClustOf(offset, size), Visits(offset, len, size))
  }

  lemma SmoothMore(v: Volume, start: nat, k: nat)
    requires v.Valid() && Smooth(v, start, k) && Chain(v, start, k).Some?
    requires NextClust(v.bpb, v.ty, v.blocks, Chain(v, start, k).value) != Panic
    ensures Smooth(v, start, k + 1)
  {
    hide Chain, NextClust;
  }

  lemma LoadableMore(v: Volume, start: nat, from: nat, k: nat)
    requires v.Valid() && Loadable(v, start, from, k) && Chain(v, start, k).Some?
             && OnDevice(v, Chain(v, start, k).value)
    ensures Loadable(v, start, from, k + 1)
  {
    hide Chain, OnDevice;
  }

  /** Behind the end of a chain nothing can be damaged. */
  lemma PastEnd(v: Volume, start: nat, from: nat, k: nat, n: nat)
    requires v.Valid() && Smooth(v, start, k) && Loadable(v, start, from, k) && Chain(v, start, k).None?
    ensures Smooth(v, start, n) && Loadable(v, start, from, n)
  {
    hide Chain, OnDevice, NextClust;
    forall j: nat | k <= j ensures Chain(v, start, j).None? { ChainEnds(v, start, k, j); }
  }

  lemma Fewer(v: Volume, start: nat, from: nat, n: nat, k: nat)
    requires v.Valid() && Smooth(v, start, n) && Loadable(v, start, from, n) && k <= n
    ensures Smooth(v, start, k) && Loadable(v, start, from, k)
  {
    hide Chain, OnDevice, NextClust;
  }

  /** Where a read is while it skips, and while it fills. */
  lemma VisitBounds(offset: nat, len: nat, k: nat, size: nat)
    requires size > 0
    ensures ClustAt(k, size) + size <= offset ==> k < ClustOf(offset, size) <= Visits(offset, len, size)
    ensures ClustAt(k, size) <= offset < ClustAt(k, size) + size ==> k == ClustOf(offset, size)
    ensures len > 0 && ClustAt(k, size) < offset + len ==> k < Visits(offset, len, size)
    ensures len > 0 && offset + len <= ClustAt(k, size) ==> Visits(offset, len, size) <= k
    ensures len == 0 ==> Visits(offset, len, size) == ClustOf(offset, size)
  {
    hide Visits, ClustAt;
    FirstBounds(offset, k, size);
    ClustOrder(offset, offset + len, size);
    if len > 0 {
      ClustOrder(offset, offset + len - 1, size);
      LastBounds(offset + len - 1, k, size);
    }
    VisitsIs(offset, len, size);
  }

  lemma VisitsIs(offset: nat, len: nat, size: nat)
    requires size > 0
    ensures Visits(offset, len, size) == if len == 0 then ClustOf(offset, size) else ClustOf(offset + len - 1, size) + 1
  {}

  lemma FirstBounds(offset: nat, k: nat, size: nat)
    requires size > 0
    ensures ClustAt(k, size) + size <= offset ==> k < ClustOf(offset, size)
    ensures ClustAt(k, size) <= offset < ClustAt(k, size) + size ==> k == ClustOf(offset, size)
  {
    var q := offset / size;
    assert offset == q * size + offset % size;
    MulGap(q, k, size);
    MulGap(k, q, size);
  }

  lemma LastBounds(last: nat, k: nat, size: nat)
    requires size > 0
    ensures ClustAt(k, size) <= last <==> k <= ClustOf(last, size)
  {
    var q := last / size;
    assert last == q * size + last % size;
    MulGap(q, k, size);
    MulGap(k, q, size);
  }

  lemma ClustOrder(x: nat, y: nat, size: nat)
    requires size > 0 && x <= y
    ensures ClustOf(x, size) <= ClustOf(y, size)
  {
    assert x == x / size * size + x % size && y == y / size * size + y % size;
    MulGap(y / size, x / size, size);
  }

  /** The concatenation of the first `m` clusters of a chain. */
  ghost function ChainBytes(v: Volume, start: nat, m: nat): (b: seq<byte>)
    requires v.Valid()
    requires forall k: nat {:trigger Chain(v, start, k)} :: k < m ==>
               Chain(v, start, k).Some? && OnDevice(v, Chain(v, start, k).value)
    ensures |b| == m * v.bpb.ClusterSize()
  {
    if m == 0 then [] else
      assert m * v.bpb.ClusterSize() == (m - 1) * v.bpb.ClusterSize() + v.bpb.ClusterSize();
      ChainBytes(v, start, m - 1) + ClusterBytes(v, Chain(v, start, m - 1).value)
  }

  lemma {:induction false} ChainByte(v: Volume, start: nat, m: nat, pos: nat)
    requires v.Valid() && pos < m * v.bpb.ClusterSize()
    requires forall k: nat {:trigger Chain(v, start, k)} :: k < m ==>
               Chain(v, start, k).Some? && OnDevice(v, Chain(v, start, k).value)
    ensures FileByte(v, start, pos) == Some(ChainBytes(v, start, m)[pos])
    decreases m
  {
    hide Chain, OnDevice, ClusterBytes, Bpb.ClusterSize;
    var size := v.bpb.ClusterSize();
    SizePositive(v);
    assert m * size == (m - 1) * size + size;
    if pos < (m - 1) * size {
      ChainByte(v, start, m - 1, pos);
    } else {
      DivUnique(pos, size, m - 1, pos - (m - 1) * size);
    }
  }

  /** For a chain of `m` clusters a read fills exactly the bytes the chain has from
      `offset` on, with a slice of the concatenated clusters. */
  lemma ReadIsSlice(v: Volume, start: nat, m: nat, offset: nat, was: seq<byte>, cur: seq<byte>)
    requires v.Valid() && Chain(v, start, m).None? && ReadExactly(v, start, offset, was, cur)
    requires forall k: nat {:trigger Chain(v, start, k)} :: k < m ==>
               Chain(v, start, k).Some? && OnDevice(v, Chain(v, start, k).value)
    ensures var total := m * v.bpb.ClusterSize();
            var n := if total <= offset then 0 else Min(|was|, total - offset);
            cur == if n == 0 then was else Overwrite(was, 0, ChainBytes(v, start, m)[offset..offset + n])
  {
    hide Chain, OnDevice, ClusterBytes, FileByte, Bpb.ClusterSize, ChainBytes;
    var total := m * v.bpb.ClusterSize();
    var n := if total <= offset then 0 else Min(|was|, total - offset);
    forall i | 0 <= i < |cur| ensures cur[i] == if i < n then ChainBytes(v, start, m)[offset + i] else was[i] {
      if i < n { ChainByte(v, start, m, offset + i); } else { PastChain(v, start, m, offset + i); }
    }
  }

  lemma PastChain(v: Volume, start: nat, m: nat, pos: nat)
    requires v.Valid() && Chain(v, start, m).None?
    ensures pos >= m * v.bpb.ClusterSize() ==> FileByte(v, start, pos).None?
  {
    hide Chain, OnDevice, ClusterBytes, Bpb.ClusterSize;
    SizePositive(v);
    if pos >= m * v.bpb.ClusterSize() {
      AtLeast(pos, m, v.bpb.ClusterSize());
      ChainEnds(v, start, m, pos / v.bpb.ClusterSize());
    }
  }

  class FatFile {
    const dev: Disk
    const bpb: Bpb
    const ty: FatType
    const start: nat
    const regular: bool

    constructor (dev: Disk, bpb: Bpb, ty: FatType, start: nat, regular: bool)
      ensures this.dev == dev && this.bpb == bpb && this.ty == ty && this.start == start && this.regular == regular
    {
      this.dev, this.bpb, this.ty, this.start, this.regular := dev, bpb, ty, start, regular;
    }

    function Vol(): Volume
      reads dev
    {
      Volume(bpb, ty, dev.blocks)
    }

    /** The sector size of the volume is the block size of the device. */
    ghost predicate Valid()
      reads dev
    {
      dev.Valid() && bpb.Valid() && dev.bs == bpb.bytsPerSec && TypeOf(bpb) == Some(ty)
    }

    method Read(buf: array<byte>, offset: nat) returns (r: Io)
      requires Valid()
      modifies buf
      ensures !regular ==> r == Failed && buf[..] == old(buf[..])
      ensures r == Done ==> ReadExactly(Vol(), start, offset, old(buf[..]), buf[..])
      ensures bpb.ClusterSize() > 0 && (r == Done <==> regular && Readable(Vol(), start, offset, buf.Length))
    {
      hide Chain, OnDevice, ClusterBytes, FileByte, NextClust, TypeOf, Filled, ReadExactly, Bpb.ClusterSize, ClustAt,
           Visits, ClustOf, Smooth, Loadable;
      ghost var v := Vol();
      SizePositive(v);
      if !regular { return Failed; }
      FillStart(v, start, offset, buf[..]);
      var first, skipRem, k := Skip(offset, buf.Length);
      match first {
        case Link(clust) => r := Fill(buf, offset, clust, skipRem, k);
        case End =>
          FillDone(v, start, offset, buf[..], buf[..], 0, k);
          PastEnd(v, start, ClustOf(offset, bpb.ClusterSize()), k, Visits(offset, buf.Length, bpb.ClusterSize()));
          r := Done;
        case Panic => r := Panicked;
      }
    }

    /** The first loop: follows the chain to the cluster that holds `offset`. */
    method Skip(offset: nat, ghost len: nat) returns (r: Next, skipRem: nat, ghost k: nat)
      requires Valid()
      ensures r.Link? ==>
                && Chain(Vol(), start, k) == Some(r.clust)
                && ClustAt(k, bpb.ClusterSize()) + skipRem == offset && skipRem < bpb.ClusterSize()
      ensures r.End? ==> Chain(Vol(), start, k) == None && ClustAt(k, bpb.ClusterSize()) <= offset
      ensures bpb.ClusterSize() > 0
      ensures r.Panic? ==> !Readable(Vol(), start, offset, len)
      ensures r.Link? ==> k == ClustOf(offset, bpb.ClusterSize())
      ensures !r.Panic? ==> Smooth(Vol(), start, k) && Loadable(Vol(), start, ClustOf(offset, bpb.ClusterSize()), k)
    {
      hide Chain, OnDevice, NextClust, TypeOf, Bpb.ClusterSize, ClustAt, Visits, ClustOf;
      ghost var v := Vol();
      var size := bpb.ClusterSize();
      ClustNext(0, size);
      SizePositive(v);
      ChainStart(v, start);
      var clust := start;
      skipRem, k := offset, 0;
      while skipRem >= size
        invariant Chain(v, start, k) == Some(clust) && ClustAt(k, size) + skipRem == offset && Smooth(v, start, k)
        invariant k <= ClustOf(offset, size)
      {
        ChainStep(v, start, k);
        ClustNext(k, size);
        VisitBounds(offset, len, k, size);
        skipRem := skipRem - size;
        match NextClust(bpb, ty, dev.blocks, clust) {
          case Link(next) => clust := next;
          case End => SmoothMore(v, start, k); k := k + 1; return End, skipRem, k;
          case Panic => return Panic, skipRem, k;
        }
        SmoothMore(v, start, k);
        k := k + 1;
      }
      VisitBounds(offset, len, k, size);
      r := Link(clust);
    }

    /** Reads one whole cluster. */
    method LoadCluster(clust: nat) returns (r: Io, data: array<byte>)
      requires Valid()
      ensures fresh(data)
      ensures r == Done <==> OnDevice(Vol(), clust)
      ensures r == Done ==> data[..] == ClusterBytes(Vol(), clust)
      ensures bpb.ClusterSize() > 0
    {
      hide ClusterBytes, TypeOf, Flatten, Overwrite, Written, UpToEnd, DivCeil, Bpb.ClusterSize, Clust2Sct;
      ghost var v := Vol();
      SizePositive(v);
      data := new byte[bpb.ClusterSize()](_ => 0);
      ghost var zero := data[..];
      if clust < 2 { return Panicked, data; }
      var ok := dev.ReadBlock(data, 0, bpb.ClusterSize(), Clust2Sct(bpb, clust));
      if !ok { return Failed, data; }
      ClusterRead(v, clust, zero);
      r := Done;
    }

    /** The second loop: copies cluster after cluster until the buffer is full or the
        chain ends. */
    method Fill(buf: array<byte>, offset: nat, first: nat, skip: nat, ghost k0: nat) returns (r: Io)
      requires Valid() && bpb.ClusterSize() > 0 && skip < bpb.ClusterSize()
      requires Chain(Vol(), start, k0) == Some(first) && ClustAt(k0, bpb.ClusterSize()) + skip == offset
      requires k0 == ClustOf(offset, bpb.ClusterSize()) && Smooth(Vol(), start, k0)
      modifies buf
      ensures r == Done ==> ReadExactly(Vol(), start, offset, old(buf[..]), buf[..])
      ensures r == Done <==> Readable(Vol(), start, offset, buf.Length)
    {
      hide Chain, OnDevice, ClusterBytes, FileByte, NextClust, TypeOf, Overwrite, Filled, ReadExactly,
           Bpb.ClusterSize, ClustAt, Visits, ClustOf;
      ghost var v, was, k := Vol(), buf[..], k0;
      var size := bpb.ClusterSize();
      FillStart(v, start, offset, was);
      var clust, skipRem, bytesRem := first, skip, buf.Length;
      while bytesRem > 0
        invariant 0 <= bytesRem <= buf.Length && 0 <= skipRem < size && buf.Length == |was|
        invariant k >= k0 && Chain(v, start, k) == Some(clust)
        invariant bytesRem > 0 ==> ClustAt(k, size) + skipRem == offset + (buf.Length - bytesRem)
        invariant Filled(v, start, offset, was, buf[..], buf.Length - bytesRem)
        invariant Smooth(v, start, k) && Loadable(v, start, k0, k)
        invariant bytesRem == 0 && buf.Length > 0 ==> offset + buf.Length <= ClustAt(k, size)
        invariant buf.Length == 0 ==> k == k0
      {
        var done := buf.Length - bytesRem;
        VisitBounds(offset, buf.Length, k, size);
        ClustNext(k, size);
        var res, clustBuf := LoadCluster(clust);
        if res != Done { return res; }
        var n := Min(bytesRem, size - skipRem);
        FillMore(v, start, offset, was, buf[..], done, k, skipRem, n);
        Copy(clustBuf[..][skipRem..skipRem + n], buf, done);
        bytesRem := bytesRem - n;
        ChainStep(v, start, k);
        LoadableMore(v, start, k0, k);
        match NextClust(bpb, ty, dev.blocks, clust) {
          case Link(next) => clust := next;
          case End =>
            SmoothMore(v, start, k);
            FillDone(v, start, offset, was, buf[..], buf.Length - bytesRem, k + 1);
            PastEnd(v, start, k0, k + 1, Visits(offset, buf.Length, size));
            return Done;
          case Panic => return Panicked;
        }
        SmoothMore(v, start, k);
        skipRem, k := 0, k + 1;
      }
      VisitBounds(offset, buf.Length, k, size);
      Fewer(v, start, k0, k, Visits(offset, buf.Length, size));
      FillDone(v, start, offset, was, buf[..], buf.Length, k);
      r := Done;
    }
  }

  lemma ChainStart(v: Volume, start: nat)
    requires v.Valid()
    ensures Chain(v, start, 0) == Some(start)
  {}

  lemma ChainStep(v: Volume, start: nat, k: nat)
    requires v.Valid() && Chain(v, start, k).Some?
    ensures Chain(v, start, k + 1) == match NextClust(v.bpb, v.ty, v.blocks, Chain(v, start, k).value)
                                      case Link(d) => Some(d)
                                      case _ => None
  {
    hide NextClust;
  }

  lemma FillStart(v: Volume, start: nat, offset: nat, was: seq<byte>)
    requires v.Valid()
    ensures Filled(v, start, offset, was, was, 0)
  {}

  lemma ClusterRead(v: Volume, clust: nat, zero: seq<byte>)
    requires v.Valid() && OnDevice(v, clust) && |zero| == v.bpb.ClusterSize()
    ensures var at := Clust2Sct(v.bpb, clust) * v.bpb.bytsPerSec;
            && at + v.bpb.ClusterSize() <= |Flatten(v.blocks, v.bpb.bytsPerSec)|
            && Overwrite(zero, 0, Flatten(v.blocks, v.bpb.bytsPerSec)[at..at + v.bpb.ClusterSize()]) ==
                  ClusterBytes(v, clust)
  {
    hide Flatten, Clust2Sct, OnDevice, Overwrite;
    ClusterInside(v, clust);
    OverwriteAll(zero, ClusterBytes(v, clust));
  }
}
