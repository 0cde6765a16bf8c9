/** Where a FAT volume keeps what: the area in front of the data, the clusters behind it,
    and the packing of the allocation table. */
module FatLayout {
  import opened Align
  import opened BlockIo
  import opened Fat
  import opened Wrappers

  // ---- The data area ----

  /** The first byte behind the reserved sectors, the tables and the root directory, whose
      entries have 32 bytes each. */
  function MetaEnd(bpb: Bpb): nat {
    (bpb.rsvdSecCnt + bpb.numFats * bpb.fatSz) * bpb.bytsPerSec + 32 * bpb.rootEntCnt
  }

  /** The first byte of a cluster. */
  function ClusterStart(bpb: Bpb, clust: nat): nat
    requires bpb.Valid() && clust >= 2
  {
    Clust2Sct(bpb, clust) * bpb.bytsPerSec
  }

  /** A quotient rounded up this way is the least that suffices. */
  lemma RoundedSectors(bytes: nat, bs: nat)
    requires bs > 0
    ensures bytes <= (bytes + (bs - 1)) / bs * bs < bytes + bs
  {
    var n := bytes + (bs - 1);
    assert n == n / bs * bs + n % bs;
  }

  /** The data starts at the first sector boundary at or behind that byte. */
  lemma DataStart(bpb: Bpb)
    requires bpb.Valid()
    ensures Aligned(ClusterStart(bpb, 2), bpb.bytsPerSec)
    ensures MetaEnd(bpb) <= ClusterStart(bpb, 2) < MetaEnd(bpb) + bpb.bytsPerSec
    ensures forall b: nat :: Aligned(b, bpb.bytsPerSec) && b >= MetaEnd(bpb) ==> ClusterStart(bpb, 2) <= b
  {
    var bs, front, root := bpb.bytsPerSec, bpb.rsvdSecCnt + bpb.numFats * bpb.fatSz, RootDirSectors(bpb);
    MulMod(Clust2Sct(bpb, 2), bs);
    RoundedSectors(bpb.rootEntCnt * 32, bs);
    assert Clust2Sct(bpb, 2) == front + root;
    assert (front + root) * bs == front * bs + root * bs;
    forall b: nat | Aligned(b, bs) && b >= MetaEnd(bpb) ensures ClusterStart(bpb, 2) <= b {
      if b < ClusterStart(bpb, 2) { NextMultiple(ClusterStart(bpb, 2), b, bs); }
    }
  }

  /** Consecutive clusters are adjacent. */
  lemma ClusterNext(bpb: Bpb, clust: nat)
    requires bpb.Valid() && clust >= 2
    ensures ClusterStart(bpb, clust + 1) == ClusterStart(bpb, clust) + bpb.ClusterSize()
  {
    var s, m, bs := Clust2Sct(bpb, clust), bpb.secPerClus, bpb.bytsPerSec;
    assert (clust - 1) * m == (clust - 2) * m + m;
    assert Clust2Sct(bpb, clust + 1) == s + m;
    assert (s + m) * bs == s * bs + m * bs;
    assert m * bs == bs * m;
  }

  /** Clusters lie one behind the other from the start of the data, so none shares a byte
      with the area in front of it or with another cluster. */
  lemma {:induction false} ClustersApart(bpb: Bpb, c: nat, d: nat)
    requires bpb.Valid() && 2 <= c <= d
    ensures MetaEnd(bpb) <= ClusterStart(bpb, c)
    ensures ClusterStart(bpb, d) == ClusterStart(bpb, c) + (d - c) * bpb.ClusterSize()
    ensures c < d ==> ClusterStart(bpb, c) + bpb.ClusterSize() <= ClusterStart(bpb, d)
    decreases d
  {
    hide Clust2Sct, MetaEnd, ClusterStart;
    if d == 2 {
      DataStart(bpb);
    } else if c == d {
      ClustersApart(bpb, c - 1, c - 1);
      ClusterNext(bpb, c - 1);
    } else {
      ClustersApart(bpb, c, d - 1);
      ClusterNext(bpb, d - 1);
      Steps(d - c, bpb.ClusterSize());
    }
  }

  lemma Steps(n: nat, size: nat)
    requires n > 0
    ensures n * size == (n - 1) * size + size >= size
  {}

  /** The clusters that end within the volume are those numbered from 2 up to one more than
      the cluster count. */
  lemma ClustersFit(bpb: Bpb, clust: nat)
    requires bpb.Valid() && clust >= 2 && ClustCnt(bpb).Some?
    ensures Clust2Sct(bpb, clust) + bpb.secPerClus <= bpb.totSec <==> clust <= ClustCnt(bpb).value + 1
  {
    var m, n, k := bpb.secPerClus, ClustCnt(bpb).value, clust - 2;
    var data := bpb.totSec - MetaSectors(bpb);
    assert data == n * m + data % m;
    Steps(k + 1, m);
    MulGap(k, n, m);
    MulGap(n, k + 1, m);
  }

  /** Where a cluster must start: the data begins at the first sector boundary behind the
      area in front of it, and each cluster takes its size. */
  function DataAt(bpb: Bpb, clust: nat): nat
    requires clust >= 2
  {
    AlignUp(MetaEnd(bpb), bpb.bytsPerSec) + (clust - 2) * bpb.ClusterSize()
  }

  /** Byte `r` of a cluster, if the whole cluster is on the device. */
  function DataByte(bpb: Bpb, flat: seq<byte>, clust: nat, r: nat): Option<byte>
    requires r < bpb.ClusterSize()
  {
    if clust < 2 then None
    else
      var at, end := DataAt(bpb, clust), DataAt(bpb, clust) + bpb.ClusterSize();
      if end > |flat| then None else Some(flat[at + r])
  }

  /** Byte `r` in the `n`-th cluster of a file is that byte of the device. */
  lemma FileByteAt(v: Volume, start: nat, n: nat, r: nat)
    requires v.Valid() && r < v.bpb.ClusterSize() && Chain(v, start, n).Some?
    ensures FileByte(v, start, n * v.bpb.ClusterSize() + r) ==
              DataByte(v.bpb, Flatten(v.blocks, v.bpb.bytsPerSec), Chain(v, start, n).value, r)
  {
    hide Chain, Flatten, Clust2Sct, MetaEnd, AlignUp, Bpb.ClusterSize, OnDevice, ClusterBytes, ClusterStart, FileByte,
         DataAt;
    FileByteIs(v, start, n, r);
    var c := Chain(v, start, n).value;
    if c >= 2 {
      ClusterIsAt(v.bpb, c);
      OnDeviceBytes(v, c);
      if OnDevice(v, c) { ClusterByte(v, c, r); }
    } else {
      NoSuchCluster(v, c);
    }
  }

  /** Byte `r` of cluster `n` of a chain. */
  ghost function ChainAt(v: Volume, start: nat, n: nat, r: nat): Option<byte>
    requires v.Valid() && r < v.bpb.ClusterSize()
  {
    var c := Chain(v, start, n);
    if c.None? || !OnDevice(v, c.value) then None else Some(ClusterBytes(v, c.value)[r])
  }

  lemma FileByteIs(v: Volume, start: nat, n: nat, r: nat)
    requires v.Valid() && r < v.bpb.ClusterSize()
    ensures FileByte(v, start, n * v.bpb.ClusterSize() + r) == ChainAt(v, start, n, r)
  {
    hide Chain, OnDevice, ClusterBytes, Bpb.ClusterSize;
    DivUnique(n * v.bpb.ClusterSize() + r, v.bpb.ClusterSize(), n, r);
  }

  lemma ClusterByte(v: Volume, clust: nat, r: nat)
    requires v.Valid() && OnDevice(v, clust) && r < v.bpb.ClusterSize()
    ensures ClusterStart(v.bpb, clust) + r < |Flatten(v.blocks, v.bpb.bytsPerSec)|
    ensures ClusterBytes(v, clust)[r] == Flatten(v.blocks, v.bpb.bytsPerSec)[ClusterStart(v.bpb, clust) + r]
  {
    hide Flatten, Clust2Sct, Bpb.ClusterSize;
    ClusterInside(v, clust);
  }

  lemma NoSuchCluster(v: Volume, clust: nat)
    requires v.Valid() && clust < 2
    ensures !OnDevice(v, clust)
  {}

  lemma ClusterIsAt(bpb: Bpb, clust: nat)
    requires bpb.Valid() && clust >= 2
    ensures ClusterStart(bpb, clust) == DataAt(bpb, clust)
  {
    hide Clust2Sct, MetaEnd, ClusterStart, AlignUp;
    ClustersApart(bpb, 2, clust);
    FirstCluster(bpb);
  }

  lemma FirstCluster(bpb: Bpb)
    requires bpb.Valid()
    ensures ClusterStart(bpb, 2) == AlignUp(MetaEnd(bpb), bpb.bytsPerSec)
  {
    hide Clust2Sct, MetaEnd, ClusterStart, AlignUp, Aligned;
    DataStart(bpb);
    AlignUpLeast(MetaEnd(bpb), bpb.bytsPerSec);
  }

  /** A cluster is on the device when its bytes are. */
  lemma OnDeviceBytes(v: Volume, clust: nat)
    requires v.Valid() && clust >= 2
    ensures OnDevice(v, clust) <==>
              ClusterStart(v.bpb, clust) + v.bpb.ClusterSize() <= |Flatten(v.blocks, v.bpb.bytsPerSec)|
  {
    hide Flatten, Clust2Sct;
    var bs, s, m := v.bpb.bytsPerSec, Clust2Sct(v.bpb, clust), v.bpb.secPerClus;
    assert (s + m) * bs == s * bs + m * bs;
    assert m * bs == bs * m;
    MulGap(s + m, |v.blocks|, bs);
    MulGap(|v.blocks|, s + m, bs);
  }

  // ---- The allocation table ----

  /** How large a table entry may be; of the 32 bits of a FAT32 entry the upper four are
      reserved. */
  predicate Packable(ty: FatType, e: nat) {
    match ty
    case Fat12 => e < 0x1000
    case Fat16 => e < 0x1_0000
    case Fat32 => e < 0x1_0000_0000
  }

  ghost predicate AllPackable(ty: FatType, es: seq<nat>) {
    forall i :: 0 <= i < |es| ==> Packable(ty, es[i])
  }

  /** The bytes of a table with the given entries: two FAT12 entries share three bytes. */
  ghost function Pack(ty: FatType, es: seq<nat>): seq<byte>
    requires AllPackable(ty, es)
  {
    if es == [] then []
    else
      var a := es[0];
      match ty
      case Fat12 =>
        if |es| == 1 then [a % 256, a / 256]
        else [a % 256, a / 256 + 16 * (es[1] % 16), es[1] / 16] + Pack(ty, es[2..])
      case Fat16 => [a % 256, a / 256] + Pack(ty, es[1..])
      case Fat32 => [a % 256, a / 256 % 256, a / 256 / 256 % 256, a / 256 / 256 / 256] + Pack(ty, es[1..])
  }

  /** Reading behind a prefix is reading the rest. */
  lemma Behind(front: seq<byte>, rest: seq<byte>, at: nat, n: nat)
    requires at + n <= |rest|
    ensures (front + rest)[|front| + at..|front| + at + n] == rest[at..at + n]
  {}

  lemma TwoBytes(x: byte, y: byte)
    ensures LittleEndian([x, y]) == x + 256 * y
  {
    assert [x, y][1..] == [y] && [y][1..] == [];
    assert LittleEndian([y]) == y;
  }

  lemma FourBytes(x: byte, y: byte, z: byte, w: byte)
    ensures LittleEndian([x, y, z, w]) == x + 256 * (y + 256 * (z + 256 * w))
  {
    assert [x, y, z, w][1..] == [y, z, w] && [y, z, w][1..] == [z, w];
    TwoBytes(z, w);
  }

  /** The entry that `next_clust` takes from a packed table is the entry packed there. */
  lemma {:induction false} PackedEntry(ty: FatType, es: seq<nat>, clust: nat)
    requires AllPackable(ty, es) && clust < |es|
    ensures var at, w := FatOffset(ty, clust), Width(ty);
            && at + w <= |Pack(ty, es)|
            && Entry(ty, clust, LittleEndian(Pack(ty, es)[at..at + w])) ==
                 if ty == Fat32 then es[clust] % 0x1000_0000 else es[clust]
    decreases |es|
  {
    hide Pack, LittleEndian, FatOffset, Width;
    if clust < Group(ty) {
      FirstPacked(ty, es, clust);
    } else {
      PackedEntry(ty, es[Group(ty)..], clust - Group(ty));
      PackedRest(ty, es, clust);
      SameEntry(ty, clust);
    }
  }

  /** How many entries are packed together. */
  function Group(ty: FatType): nat { if ty == Fat12 then 2 else 1 }

  lemma PackSplit(ty: FatType, es: seq<nat>) returns (front: seq<byte>)
    requires AllPackable(ty, es) && |es| >= Group(ty)
    ensures |front| == FatOffset(ty, Group(ty)) && Pack(ty, es) == front + Pack(ty, es[Group(ty)..])
  {
    var a := es[0];
    assert Packable(ty, a);
    match ty {
      case Fat12 =>
        assert Packable(ty, es[1]);
        front := [a % 256, a / 256 + 16 * (es[1] % 16), es[1] / 16];
      case Fat16 => front := [a % 256, a / 256];
      case Fat32 => front := [a % 256, a / 256 % 256, a / 256 / 256 % 256, a / 256 / 256 / 256];
    }
  }

  lemma OffsetStep(ty: FatType, clust: nat)
    requires clust >= Group(ty)
    ensures FatOffset(ty, clust) == FatOffset(ty, Group(ty)) + FatOffset(ty, clust - Group(ty))
  {}

  lemma PackedRest(ty: FatType, es: seq<nat>, clust: nat)
    requires AllPackable(ty, es) && Group(ty) <= clust < |es|
    requires FatOffset(ty, clust - Group(ty)) + Width(ty) <= |Pack(ty, es[Group(ty)..])|
    ensures var at, at', w := FatOffset(ty, clust), FatOffset(ty, clust - Group(ty)), Width(ty);
            && at + w <= |Pack(ty, es)|
            && Pack(ty, es)[at..at + w] == Pack(ty, es[Group(ty)..])[at'..at' + w]
  {
    hide Pack, FatOffset, Group, Width;
    var at', w, rest := FatOffset(ty, clust - Group(ty)), Width(ty), Pack(ty, es[Group(ty)..]);
    var front := PackSplit(ty, es);
    OffsetStep(ty, clust);
    Behind(front, rest, at', w);
  }

  lemma FirstPacked(ty: FatType, es: seq<nat>, clust: nat)
    requires AllPackable(ty, es) && clust < |es| && clust < Group(ty)
    ensures var at, w := FatOffset(ty, clust), Width(ty);
            && at + w <= |Pack(ty, es)|
            && Entry(ty, clust, LittleEndian(Pack(ty, es)[at..at + w])) ==
                 if ty == Fat32 then es[clust] % 0x1000_0000 else es[clust]
  {
    hide LittleEndian;
    assert Packable(ty, es[0]);
    match ty {
      case Fat12 => FirstPair(es, clust);
      case Fat16 => FirstWord(es);
      case Fat32 => FirstLong(es);
    }
  }

  /** The parity of a cluster is its place in the group. */
  lemma SameEntry(ty: FatType, clust: nat)
    requires clust >= Group(ty)
    ensures forall raw: nat :: Entry(ty, clust, raw) == Entry(ty, clust - Group(ty), raw)
  {}

  lemma PairDecodes(a: nat, b: nat)
    requires a < 0x1000 && b < 0x1000
    ensures Entry(Fat12, 0, a % 256 + 256 * (a / 256)) == a
    ensures Entry(Fat12, 0, a % 256 + 256 * (a / 256 + 16 * (b % 16))) == a
    ensures Entry(Fat12, 1, a / 256 + 16 * (b % 16) + 256 * (b / 16)) == b
  {}

  lemma FirstPair(es: seq<nat>, clust: nat)
    requires AllPackable(Fat12, es) && clust < |es| && clust < 2
    ensures clust + 2 <= |Pack(Fat12, es)|
    ensures Entry(Fat12, clust, LittleEndian(Pack(Fat12, es)[clust..clust + 2])) == es[clust]
  {
    hide LittleEndian, Entry;
    var p, a := Pack(Fat12, es), es[0];
    assert Packable(Fat12, a);
    if |es| == 1 {
      assert p[0..2] == [a % 256, a / 256];
      TwoBytes(a % 256, a / 256);
      PairDecodes(a, 0);
    } else {
      var b := es[1];
      assert Packable(Fat12, b);
      var x, y, z := a % 256, a / 256 + 16 * (b % 16), b / 16;
      assert p[0] == x && p[1] == y && p[2] == z;
      assert p[clust..clust + 2] == if clust == 0 then [x, y] else [y, z];
      hide Pack;
      TwoBytes(x, y);
      TwoBytes(y, z);
      PairDecodes(a, b);
    }
  }

  lemma FirstWord(es: seq<nat>)
    requires AllPackable(Fat16, es) && es != []
    ensures 2 <= |Pack(Fat16, es)| && LittleEndian(Pack(Fat16, es)[0..2]) == es[0]
  {
    hide LittleEndian;
    var p, a := Pack(Fat16, es), es[0];
    assert Packable(Fat16, a);
    assert p[0..2] == [a % 256, a / 256];
    TwoBytes(a % 256, a / 256);
  }

  lemma FirstLong(es: seq<nat>)
    requires AllPackable(Fat32, es) && es != []
    ensures 4 <= |Pack(Fat32, es)| && LittleEndian(Pack(Fat32, es)[0..4]) == es[0]
  {
    hide LittleEndian;
    var p, a := Pack(Fat32, es), es[0];
    assert Packable(Fat32, a);
    var x, y, z, w := a % 256, a / 256 % 256, a / 256 / 256 % 256, a / 256 / 256 / 256;
    assert p[0..4] == [x, y, z, w];
    FourBytes(x, y, z, w);
    LongBytes(a);
  }

  lemma LongBytes(a: nat)
    ensures a == a % 256 + 256 * (a / 256 % 256 + 256 * (a / 256 / 256 % 256 + 256 * (a / 256 / 256 / 256)))
  {
    var q := a / 256;
    var p := q / 256;
    assert a == 256 * q + a % 256;
    assert q == 256 * p + q % 256;
    assert p == 256 * (p / 256) + p % 256;
  }

  /** The table on the device is the packed list `es`. */
  ghost predicate Tabled(bpb: Bpb, ty: FatType, flat: seq<byte>, es: seq<nat>) {
    && AllPackable(ty, es)
    && var at := bpb.rsvdSecCnt * bpb.bytsPerSec;
       at + |Pack(ty, es)| <= |flat| && flat[at..at + |Pack(ty, es)|] == Pack(ty, es)
  }

  /** Chains on a volume are chains of the listed entries: an entry leads to the cluster it
      names, and ends the chain from the end mark of its type on. */
  lemma TableDecodes(bpb: Bpb, ty: FatType, flat: seq<byte>, es: seq<nat>, clust: nat)
    requires Tabled(bpb, ty, flat, es) && clust < |es|
    ensures NextByTable(bpb, ty, flat, clust) ==
              match ty
              case Fat12 => if es[clust] >= 0xff8 then End else Link(es[clust])
              case Fat16 => if es[clust] >= 0xfff8 then End else Link(es[clust])
              case Fat32 =>
                if es[clust] % 0x1000_0000 >= 0xfff_fff8 then End else Link(es[clust] % 0x1000_0000)
  {
    hide Pack, LittleEndian, FatOffset, Entry;
    PackedEntry(ty, es, clust);
    var base, at, w, p := bpb.rsvdSecCnt * bpb.bytsPerSec, FatOffset(ty, clust), Width(ty), Pack(ty, es);
    SliceSlice(flat, base, |p|, at, w);
  }

  /** What the reader makes of one sector of such a table, unless the entry straddles two. */
  lemma SectorDecodes(v: Volume, es: seq<nat>, clust: nat)
    requires v.Valid() && Tabled(v.bpb, v.ty, Flatten(v.blocks, v.bpb.bytsPerSec), es) && clust < |es|
    requires !Straddles(v.bpb, v.ty, clust) && FatSector(v.bpb, v.ty, clust) < |v.blocks|
    ensures NextClust(v.bpb, v.ty, v.blocks, clust) ==
              match v.ty
              case Fat12 => if es[clust] >= 0xff8 then End else Link(es[clust])
              case Fat16 => if es[clust] >= 0xfff8 then End else Link(es[clust])
              case Fat32 =>
                if es[clust] % 0x1000_0000 >= 0xfff_fff8 then End else Link(es[clust] % 0x1000_0000)
  {
    hide Flatten, Tabled, NextByTable, NextClust, Straddles, FatSector;
    TableDecodes(v.bpb, v.ty, Flatten(v.blocks, v.bpb.bytsPerSec), es, clust);
    NextClustIff(v.bpb, v.ty, v.blocks, clust);
  }
}
