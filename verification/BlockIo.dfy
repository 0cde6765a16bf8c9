/** Byte access to block devices: the chunked loops of the NVMe driver, and unaligned
    reads and writes of device and partition files, refine a flat byte array. */
module BlockIo {
  import opened Align

  type byte = b: int | 0 <= b < 256

  /** All bytes of the device in order. */
  function Flatten(blocks: seq<seq<byte>>, bs: nat): (flat: seq<byte>)
    requires forall i :: 0 <= i < |blocks| ==> |blocks[i]| == bs
    ensures |flat| == |blocks| * bs
  {
    if blocks == [] then [] else Flatten(blocks[..|blocks| - 1], bs) + blocks[|blocks| - 1]
  }

  /** `data` written over `flat` at position `at`. */
  function Overwrite(flat: seq<byte>, at: nat, data: seq<byte>): (r: seq<byte>)
    requires at + |data| <= |flat|
    ensures |r| == |flat|
  {
    flat[..at] + data + flat[at + |data|..]
  }

  lemma MulLe(x: nat, y: nat, m: nat)
    requires x <= y
    ensures x * m <= y * m
  {
    MulGap(x, y, m);
  }

  /** A block is its stretch of the flat bytes. */
  lemma {:induction false} FlattenBlock(blocks: seq<seq<byte>>, bs: nat, i: nat)
    requires (forall k :: 0 <= k < |blocks| ==> |blocks[k]| == bs) && i < |blocks|
    ensures i * bs + bs <= |blocks| * bs
    ensures Flatten(blocks, bs)[i * bs..i * bs + bs] == blocks[i]
  {
    MulGap(i, |blocks|, bs);
    var n := |blocks| - 1;
    assert n * bs + bs == |blocks| * bs;
    if i < n {
      FlattenBlock(blocks[..n], bs, i);
    }
  }

  /** Only the written range changes. */
  lemma OverwriteAt(flat: seq<byte>, at: nat, data: seq<byte>, k: nat)
    requires at + |data| <= |flat| && k < |flat|
    ensures Overwrite(flat, at, data)[k] == if at <= k < at + |data| then data[k - at] else flat[k]
  {
    var head := flat[..at] + data;
    assert Overwrite(flat, at, data) == head + flat[at + |data|..];
    if k < at {
      assert head[k] == flat[k];
    } else if k < at + |data| {
      assert head[k] == data[k - at];
    }
  }

  lemma SameBytes(a: seq<byte>, b: seq<byte>)
    requires |a| == |b| && forall k: nat :: k < |a| ==> a[k] == b[k]
    ensures a == b
  {}

  /** Writing two adjoining pieces is writing their concatenation. */
  lemma OverwriteTwice(flat: seq<byte>, at: nat, a: seq<byte>, b: seq<byte>)
    requires at + |a| + |b| <= |flat|
    ensures Overwrite(Overwrite(flat, at, a), at + |a|, b) == Overwrite(flat, at, a + b)
  {
    hide Overwrite;
    var mid := Overwrite(flat, at, a);
    var twice, once := Overwrite(mid, at + |a|, b), Overwrite(flat, at, a + b);
    forall k: nat | k < |flat| ensures twice[k] == once[k] {
      OverwriteAt(flat, at, a, k);
      OverwriteAt(mid, at + |a|, b, k);
      OverwriteAt(flat, at, a + b, k);
    }
    SameBytes(twice, once);
  }

  /** Replacing a block overwrites its stretch. */
  lemma {:induction false} FlattenUpdate(blocks: seq<seq<byte>>, bs: nat, i: nat, data: seq<byte>)
    requires (forall k :: 0 <= k < |blocks| ==> |blocks[k]| == bs) && i < |blocks| && |data| == bs
    ensures i * bs + bs <= |blocks| * bs
    ensures Flatten(blocks[i := data], bs) == Overwrite(Flatten(blocks, bs), i * bs, data)
  {
    hide Overwrite;
    MulGap(i, |blocks|, bs);
    var n := |blocks| - 1;
    assert n * bs + bs == |blocks| * bs;
    var init, last := blocks[..n], blocks[n];
    if i < n {
      FlattenUpdate(init, bs, i, data);
      assert blocks[i := data][..n] == init[i := data];
      OverwriteHead(Flatten(init, bs), last, i * bs, data);
    } else {
      assert blocks[i := data][..n] == init;
      OverwriteTail(Flatten(init, bs), last, data);
    }
  }

  lemma OverwriteHead(head: seq<byte>, tail: seq<byte>, at: nat, data: seq<byte>)
    requires at + |data| <= |head|
    ensures Overwrite(head + tail, at, data) == Overwrite(head, at, data) + tail
  {
    hide Overwrite;
    var x, y := Overwrite(head + tail, at, data), Overwrite(head, at, data) + tail;
    forall k: nat | k < |head + tail| ensures x[k] == y[k] {
      OverwriteAt(head + tail, at, data, k);
      if k < |head| { OverwriteAt(head, at, data, k); }
    }
    SameBytes(x, y);
  }

  lemma OverwriteTail(head: seq<byte>, tail: seq<byte>, data: seq<byte>)
    requires |data| == |tail|
    ensures Overwrite(head + tail, |head|, data) == head + data
  {
    hide Overwrite;
    var x, y := Overwrite(head + tail, |head|, data), head + data;
    forall k: nat | k < |head + tail| ensures x[k] == y[k] {
      OverwriteAt(head + tail, |head|, data, k);
    }
    SameBytes(x, y);
  }

  lemma OverwriteSlice(flat: seq<byte>, at: nat, data: seq<byte>, lo: nat, hi: nat)
    requires at + |data| <= |flat| && lo <= hi <= |flat|
    ensures hi <= at || at + |data| <= lo ==> Overwrite(flat, at, data)[lo..hi] == flat[lo..hi]
    ensures lo == at && hi == at + |data| ==> Overwrite(flat, at, data)[lo..hi] == data
  {
    hide Overwrite;
    var r := Overwrite(flat, at, data);
    forall k: nat | k < hi - lo
      ensures r[lo..hi][k] == if at <= lo + k < at + |data| then data[lo + k - at] else flat[lo + k]
    {
      OverwriteAt(flat, at, data, lo + k);
    }
    if hi <= at || at + |data| <= lo { SameBytes(r[lo..hi], flat[lo..hi]); }
    if lo == at && hi == at + |data| { SameBytes(r[lo..hi], data); }
  }

  // ---- The driver ----

  /** An NVMe namespace: whole blocks, read and written one at a time. */
  class Disk {
    const bs: nat
    var blocks: seq<seq<byte>>

    ghost predicate Valid()
      reads this
    {
      bs > 0 && forall i :: 0 <= i < |blocks| ==> |blocks[i]| == bs
    }

    ghost function Flat(): (flat: seq<byte>)
      reads this
      requires Valid()
      ensures |flat| == |blocks| * bs
    {
      Flatten(blocks, bs)
    }

    constructor (bs: nat, blocks: seq<seq<byte>>)
      requires bs > 0 && forall i :: 0 <= i < |blocks| ==> |blocks[i]| == bs
      ensures Valid() && this.bs == bs && this.blocks == blocks
    {
      this.bs, this.blocks := bs, blocks;
    }

    /** Fills `buf[lo..hi]` from block `lba` on, chunk by chunk. */
    method ReadBlock(buf: array<byte>, lo: nat, hi: nat, lba: nat) returns (ok: bool)
      requires Valid() && lo <= hi <= buf.Length
      modifies buf
      ensures ok <==> lo == hi || lba + DivCeil(hi - lo, bs) <= |blocks|
      ensures ok && lo < hi ==> lba * bs + (hi - lo) <= |Flat()|
      ensures ok ==> buf[..] == if lo == hi then old(buf[..])
                                else Overwrite(old(buf[..]), lo, Flat()[lba * bs..lba * bs + (hi - lo)])
      ensures !ok ==> buf[..] == Written(old(buf[..]), lo, Flat(), lba * bs, UpToEnd(lba, |blocks|, bs))
      ensures buf[..lo] == old(buf[..lo]) && buf[hi..] == old(buf[hi..])
    {
      hide Flatten, DivCeil, Overwrite, Chunked, Written, UpToEnd;
      ghost var flat, base, was := Flat(), lba * bs, buf[..];
      var len, pos, i := hi - lo, 0, 0;
      ok := true;
      ChunkStart(bs, len, lba, |blocks|, |flat|);
      WrittenNone(was, lo, flat, base);
      while pos < len
        invariant pos <= len && Chunked(i, bs, pos, len, lba, |blocks|, |flat|)
        invariant buf[..] == Written(was, lo, flat, base, pos)
      {
        ChunkStep(i, bs, pos, len, lba, |blocks|, |flat|);
        if lba + i >= |blocks| {
          WrittenOutside(was, lo, hi, flat, base, pos);
          return false;
        }
        var n := Min(bs, len - pos);
        ChunkOf(blocks, bs, lba, i, n);
        Copy(blocks[lba + i][..n], buf, lo + pos);
        WrittenMore(was, lo, flat, base, pos, n);
        pos, i := pos + n, i + 1;
      }
      ChunkEnd(i, bs, len, lba, |blocks|, |flat|);
      WrittenOutside(was, lo, hi, flat, base, pos);
      WrittenAll(was, lo, flat, base, len);
    }

    /** Writes `data` from block `lba` on, chunk by chunk, through a one-block buffer; a
        short last chunk keeps the rest of its block. */
    method WriteBlock(data: seq<byte>, lba: nat) returns (ok: bool)
      requires Valid()
      modifies this
      ensures Valid() && |blocks| == |old(blocks)|
      ensures ok <==> |data| == 0 || lba + DivCeil(|data|, bs) <= |blocks|
      ensures ok ==> |data| == 0 || lba * bs + |data| <= |old(Flat())|
      ensures ok ==> Flat() == if |data| == 0 then old(Flat()) else Overwrite(old(Flat()), lba * bs, data)
      ensures !ok ==> Flat() == Written(old(Flat()), lba * bs, data, 0, UpToEnd(lba, |blocks|, bs))
    {
      hide Flatten, DivCeil, Overwrite, Chunked, Written, UpToEnd;
      ghost var flat, base := Flat(), lba * bs;
      var pabuf: seq<byte> := seq(bs, _ => 0);
      var len, pos, i := |data|, 0, 0;
      ok := true;
      ChunkStart(bs, len, lba, |blocks|, |flat|);
      WrittenNone(flat, base, data, 0);
      while pos < len
        invariant Valid() && |blocks| == |old(blocks)| && |pabuf| == bs
        invariant pos <= len && Chunked(i, bs, pos, len, lba, |blocks|, |flat|)
        invariant Flat() == Written(flat, base, data, 0, pos)
      {
        ChunkStep(i, bs, pos, len, lba, |blocks|, |flat|);
        var n := Min(bs, len - pos);
        var chunk := data[pos..pos + n];
        if n < bs {
          if lba + i >= |blocks| { return false; }
          pabuf := blocks[lba + i];
        }
        pabuf := chunk + pabuf[n..];
        if lba + i >= |blocks| { return false; }
        ChunkWritten(blocks, bs, lba, i, chunk, pabuf[n..]);
        assert pabuf == chunk + pabuf[n..];
        blocks := blocks[lba + i := pabuf];
        WrittenMore(flat, base, data, 0, pos, n);
        pos, i := pos + n, i + 1;
      }
      ChunkEnd(i, bs, len, lba, |blocks|, |flat|);
      WrittenAll(flat, base, data, 0, len);
      assert data[0..len] == data;
    }
  }

  /** Bytes from block `lba` to the end of the device: what a failing transfer moves. */
  function UpToEnd(lba: nat, count: nat, bs: nat): nat {
    if lba < count then (count - lba) * bs else 0
  }

  /** Loop state of both drivers: `i` chunks of `bs` bytes have moved `pos` bytes. */
  predicate Chunked(i: nat, bs: nat, pos: nat, len: nat, lba: nat, count: nat, size: nat) {
    && bs > 0 && pos <= len
    && (pos < len ==> pos == i * bs)
    && (pos == len ==> i == DivCeil(len, bs))
    && (pos > 0 ==> i > 0)
    && (i > 0 ==> lba + i <= count && lba * bs + pos <= size)
  }

  lemma ChunkStart(bs: nat, len: nat, lba: nat, count: nat, size: nat)
    requires bs > 0
    ensures Chunked(0, bs, 0, len, lba, count, size)
  {}

  lemma ChunkEnd(i: nat, bs: nat, len: nat, lba: nat, count: nat, size: nat)
    requires Chunked(i, bs, len, len, lba, count, size)
    ensures len > 0 ==> lba + DivCeil(len, bs) <= count && lba * bs + len <= size
  {}

  /** One more chunk, if the device has the block. */
  lemma ChunkStep(i: nat, bs: nat, pos: nat, len: nat, lba: nat, count: nat, size: nat)
    requires Chunked(i, bs, pos, len, lba, count, size) && pos < len && size == count * bs
    ensures pos == i * bs
    ensures lba + i < count ==>
              var n := Min(bs, len - pos);
              Chunked(i + 1, bs, pos + n, len, lba, count, size) && lba * bs + pos + n <= size
    ensures lba + i >= count ==> lba + DivCeil(len, bs) > count && pos == UpToEnd(lba, count, bs)
  {
    ChunkNext(len, bs, i);
    hide DivCeil, UpToEnd;
    if lba + i < count {
      BlockFits(lba, i, count, bs);
    } else {
      StopsAtEnd(i, lba, count, bs);
    }
  }

  lemma BlockFits(lba: nat, i: nat, count: nat, bs: nat)
    requires lba + i < count
    ensures lba * bs + i * bs + bs <= count * bs
  {
    MulLe(lba + i + 1, count, bs);
    assert (lba + i + 1) * bs == lba * bs + i * bs + bs;
  }

  lemma StopsAtEnd(i: nat, lba: nat, count: nat, bs: nat)
    requires lba + i >= count && (i > 0 ==> lba + i <= count)
    ensures i * bs == UpToEnd(lba, count, bs)
  {
    assert i == 0 || i == count - lba;
  }

  lemma CeilBounds(len: nat, bs: nat)
    requires bs > 0
    ensures len <= DivCeil(len, bs) * bs < len + bs
  {
    assert len == len / bs * bs + len % bs;
    assert (len / bs + 1) * bs == len / bs * bs + bs;
  }

  lemma WrittenNone(dst: seq<byte>, at: nat, src: seq<byte>, from: nat)
    ensures Written(dst, at, src, from, 0) == dst
  {}

  lemma WrittenAll(dst: seq<byte>, at: nat, src: seq<byte>, from: nat, n: nat)
    requires n > 0 ==> from + n <= |src| && at + n <= |dst|
    ensures Written(dst, at, src, from, n) == if n == 0 then dst else Overwrite(dst, at, src[from..from + n])
  {}

  /** `dst` with `n` bytes of `src[from..]` written at `at`. */
  function Written(dst: seq<byte>, at: nat, src: seq<byte>, from: nat, n: nat): (r: seq<byte>) {
    if n == 0 || from + n > |src| || at + n > |dst| then dst else Overwrite(dst, at, src[from..from + n])
  }

  lemma WrittenMore(dst: seq<byte>, at: nat, src: seq<byte>, from: nat, pos: nat, n: nat)
    requires n > 0 && from + pos + n <= |src| && at + pos + n <= |dst|
    ensures |Written(dst, at, src, from, pos)| == |dst|
    ensures Overwrite(Written(dst, at, src, from, pos), at + pos, src[from + pos..from + pos + n]) ==
              Written(dst, at, src, from, pos + n)
  {
    hide Overwrite;
    SliceJoin(src, from, pos, n);
    if pos > 0 {
      OverwriteTwice(dst, at, src[from..from + pos], src[from + pos..from + pos + n]);
    }
  }

  lemma SliceJoin(src: seq<byte>, from: nat, pos: nat, n: nat)
    requires from + pos + n <= |src|
    ensures src[from..from + pos] + src[from + pos..from + pos + n] == src[from..from + pos + n]
  {}

  lemma WrittenOutside(dst: seq<byte>, lo: nat, hi: nat, src: seq<byte>, from: nat, n: nat)
    requires lo + n <= hi <= |dst|
    ensures |Written(dst, lo, src, from, n)| == |dst|
    ensures Written(dst, lo, src, from, n)[..lo] == dst[..lo] && Written(dst, lo, src, from, n)[hi..] == dst[hi..]
  {}

  lemma ChunkOf(blocks: seq<seq<byte>>, bs: nat, lba: nat, i: nat, n: nat)
    requires (forall k :: 0 <= k < |blocks| ==> |blocks[k]| == bs) && lba + i < |blocks| && n <= bs
    ensures lba * bs + i * bs + bs <= |blocks| * bs
    ensures blocks[lba + i][..n] == Flatten(blocks, bs)[lba * bs + i * bs..lba * bs + i * bs + n]
  {
    hide Flatten;
    BlockAt(blocks, bs, lba, i);
    SliceSlice(Flatten(blocks, bs), lba * bs + i * bs, bs, 0, n);
  }

  /** Writing one block whose tail `rest` is either empty or read from the disk. */
  lemma ChunkWritten(blocks: seq<seq<byte>>, bs: nat, lba: nat, i: nat, chunk: seq<byte>, rest: seq<byte>)
    requires (forall k :: 0 <= k < |blocks| ==> |blocks[k]| == bs) && lba + i < |blocks|
    requires |chunk| + |rest| == bs && rest == blocks[lba + i][|chunk|..]
    ensures lba * bs + i * bs + bs <= |blocks| * bs
    ensures Flatten(blocks[lba + i := chunk + rest], bs) == Overwrite(Flatten(blocks, bs), lba * bs + i * bs, chunk)
  {
    hide Overwrite, Flatten;
    BlockAt(blocks, bs, lba, i);
    FlattenUpdate(blocks, bs, lba + i, chunk + rest);
    assert (lba + i) * bs == lba * bs + i * bs;
    var flat, at := Flatten(blocks, bs), lba * bs + i * bs;
    TailOf(flat, at, bs, |chunk|);
    OverwriteKeeping(flat, at, chunk, rest);
  }

  lemma TailOf(flat: seq<byte>, at: nat, bs: nat, n: nat)
    requires at + bs <= |flat| && n <= bs
    ensures flat[at..at + bs][n..] == flat[at + n..at + bs]
  {}

  /** Bytes written back unchanged do not count as written. */
  lemma OverwriteKeeping(flat: seq<byte>, at: nat, data: seq<byte>, rest: seq<byte>)
    requires at + |data| + |rest| <= |flat| && rest == flat[at + |data|..at + |data| + |rest|]
    ensures Overwrite(flat, at, data + rest) == Overwrite(flat, at, data)
  {
    hide Overwrite;
    var x, y := Overwrite(flat, at, data + rest), Overwrite(flat, at, data);
    forall k: nat | k < |flat| ensures x[k] == y[k] {
      OverwriteAt(flat, at, data + rest, k);
      OverwriteAt(flat, at, data, k);
    }
    SameBytes(x, y);
  }

  /** Block `lba + i` in terms of the flat bytes from block `lba` on. */
  lemma BlockAt(blocks: seq<seq<byte>>, bs: nat, lba: nat, i: nat)
    requires (forall k :: 0 <= k < |blocks| ==> |blocks[k]| == bs) && lba + i < |blocks|
    ensures lba * bs + i * bs + bs <= |blocks| * bs
    ensures Flatten(blocks, bs)[lba * bs + i * bs..lba * bs + i * bs + bs] == blocks[lba + i]
  {
    FlattenBlock(blocks, bs, lba + i);
    assert (lba + i) * bs == lba * bs + i * bs;
  }

  /** While bytes are left after `i` full chunks, another chunk is due. */
  lemma ChunkNext(len: nat, bs: nat, i: nat)
    requires bs > 0 && i * bs < len
    ensures i < DivCeil(len, bs)
    ensures i * bs + bs < len ==> (i + 1) * bs == i * bs + bs
    ensures i * bs + bs >= len ==> i + 1 == DivCeil(len, bs)
  {
    var n := DivCeil(len, bs);
    CeilBounds(len, bs);
    hide DivCeil;
    Between(n, i, bs, len);
  }

  lemma Between(n: nat, i: nat, bs: nat, len: nat)
    requires bs > 0 && i * bs < len <= n * bs < len + bs
    ensures i < n && (i + 1) * bs == i * bs + bs && (i * bs + bs >= len ==> i + 1 == n)
  {
    assert (i + 1) * bs == i * bs + bs;
    MulGap(n, i, bs);
    assert i < n;
    MulGap(i + 1, n, bs);
  }

  function Min(a: int, b: int): int { if a < b then a else b }

  /** `dst[at..]` is overwritten with `src`. */
  method Copy(src: seq<byte>, dst: array<byte>, at: nat)
    requires at + |src| <= dst.Length
    modifies dst
    ensures dst[..] == Overwrite(old(dst[..]), at, src)
  {
    for k := 0 to |src|
      invariant forall j :: 0 <= j < dst.Length ==> dst[j] == if at <= j < at + k then src[j - at] else old(dst[j])
    {
      dst[at + k] := src[k];
    }
  }

  // ---- Device and partition files ----

  datatype Io = Done | Failed | Panicked

  /** A device file, or with a start block the file of a partition. */
  class BlockFile {
    const dev: Disk
    const startLba: nat
    const blockCount: nat

    constructor (dev: Disk, startLba: nat, blockCount: nat)
      ensures this.dev == dev && this.startLba == startLba && this.blockCount == blockCount
    {
      this.dev, this.startLba, this.blockCount := dev, startLba, blockCount;
    }

    method Read(buf: array<byte>, offset: nat) returns (ok: bool)
      requires dev.Valid()
      modifies buf
      ensures ok <==> (EndBlock(offset, buf.Length, dev.bs) == offset / dev.bs
                       || startLba + EndBlock(offset, buf.Length, dev.bs) <= |dev.blocks|)
      ensures ok && buf.Length > 0 ==> startLba * dev.bs + offset + buf.Length <= |dev.Flat()|
      ensures ok && buf.Length > 0 ==>
                buf[..] == dev.Flat()[startLba * dev.bs + offset..startLba * dev.bs + offset + buf.Length]
      ensures !ok ==> buf[..] == old(buf[..])
    {
      hide Flatten, DivCeil, EndBlock, Overwrite;
      var bs := dev.bs;
      var start, end := offset / bs, EndBlock(offset, buf.Length, bs);
      Window(offset, buf.Length, bs);
      ok := ReadWindow(start + startLba, end - start, offset % bs, buf);
      BaseSkip(startLba, offset, bs);
    }

    /** Reads `n` blocks from block `first` on and hands out what follows the first
        `skip` bytes. */
    method ReadWindow(first: nat, n: nat, skip: nat, buf: array<byte>) returns (ok: bool)
      requires dev.Valid() && skip + buf.Length <= n * dev.bs
      modifies buf
      ensures ok <==> n == 0 || first + n <= |dev.blocks|
      ensures ok && buf.Length > 0 ==> first * dev.bs + skip + buf.Length <= |dev.Flat()|
      ensures ok && buf.Length > 0 ==>
                buf[..] == dev.Flat()[first * dev.bs + skip..first * dev.bs + skip + buf.Length]
      ensures !ok ==> buf[..] == old(buf[..])
    {
      hide Flatten, DivCeil, Overwrite, Written, UpToEnd;
      var bs := dev.bs;
      var vec := new byte[n * bs](_ => 0);
      ghost var zero := vec[..];
      WholeBlocks(n, bs);
      ok := dev.ReadBlock(vec, 0, vec.Length, first);
      if ok && buf.Length > 0 {
        OverwriteAll(zero, dev.Flat()[first * bs..first * bs + vec.Length]);
        var part := vec[skip..][..buf.Length];
        SliceSlice(dev.Flat(), first * bs, vec.Length, skip, buf.Length);
        Copy(part, buf, 0);
        OverwriteAll(old(buf[..]), part);
      }
    }

    method Write(data: seq<byte>, offset: nat) returns (r: Io)
      requires dev.Valid()
      modifies dev
      ensures dev.Valid() && |dev.blocks| == |old(dev.blocks)|
      ensures r == Panicked <==> |data| == 0 && Within(offset, dev.bs) == 0
      ensures r == Done ==> BytePos(startLba, dev.bs, offset) + |data| <= |old(dev.Flat())|
      ensures InRange(startLba, blockCount, dev.bs, |dev.blocks|, offset, |data|) ==>
                r != Failed && dev.Flat() == FileWrite(old(dev.Flat()), dev.bs, startLba, offset, data)
      ensures r == Done ==> dev.Flat() == Overwrite(old(dev.Flat()), BytePos(startLba, dev.bs, offset), data)
      ensures r == Failed <==> r != Panicked && startLba + EndBlock(offset, |data|, dev.bs) > |dev.blocks|
      ensures r != Done ==> dev.blocks == old(dev.blocks)
    {
      var bs := dev.bs;
      assert bs > 0;
      hide Flatten, DivCeil, EndBlock, Overwrite, FileWrite, InRange, Disk.Valid, Within, BlockOf, BytePos, Spans;
      var start, end, skip := BlockOf(offset, bs), EndBlock(offset, |data|, bs), Within(offset, bs);
      WriteReady(bs, startLba, blockCount, |dev.blocks|, offset, |data|);
      WriteOnFlat(dev.Flat(), bs, startLba, offset, data);
      if end == start { return Panicked; }
      var ok := WriteWindow(start + startLba, end - start, skip, data, BytePos(startLba, bs, offset));
      r := if ok then Done else Failed;
    }

    /** Reads the first and the last of `n` blocks from block `first` on, overwrites the
        window from `skip` on, and writes all `n` blocks back. */
    method WriteWindow(first: nat, n: nat, skip: nat, data: seq<byte>, ghost at: nat) returns (ok: bool)
      requires dev.Valid() && n > 0 && at == BytePos(first, dev.bs, skip) && Spans(n, dev.bs, skip, |data|)
      modifies dev
      ensures dev.Valid() && |dev.blocks| == |old(dev.blocks)|
      ensures ok <==> first + n <= |dev.blocks|
      ensures ok ==> at + |data| <= |old(dev.Flat())|
      ensures ok ==> dev.Flat() == Overwrite(old(dev.Flat()), at, data)
      ensures !ok ==> dev.blocks == old(dev.blocks)
    {
      hide Flatten, DivCeil, Overwrite, Written, UpToEnd;
      var bs, len := dev.bs, n * dev.bs;
      WholeBlocks(n, bs);
      ghost var base := first * bs;
      assert at == base + skip && skip < bs && skip + |data| <= len < skip + |data| + bs;
      hide Spans, BytePos;
      var vec := new byte[len](_ => 0);
      ok := ReadEnds(first, n, vec);
      if !ok { return; }
      ghost var read := vec[..];
      Copy(data, vec, skip);
      WindowWrite(dev.Flat(), base, read, bs, skip, data);
      ok := dev.WriteBlock(vec[..], first);
    }

    /** Reads the first and the last of `n` blocks from block `first` on into the window. */
    method ReadEnds(first: nat, n: nat, vec: array<byte>) returns (ok: bool)
      requires dev.Valid() && n > 0 && vec.Length == n * dev.bs >= dev.bs
      modifies vec
      ensures ok <==> first + n <= |dev.blocks|
      ensures ok ==> first * dev.bs + vec.Length <= |dev.Flat()|
      ensures ok ==> vec[..][..dev.bs] == dev.Flat()[first * dev.bs..first * dev.bs + dev.bs]
      ensures ok ==> vec[..][vec.Length - dev.bs..] ==
                       dev.Flat()[first * dev.bs + vec.Length - dev.bs..first * dev.bs + vec.Length]
    {
      hide Flatten, DivCeil, Overwrite, Written, UpToEnd;
      var bs, len := dev.bs, vec.Length;
      WholeBlocks(n, bs);
      OneBlock(bs);
      ghost var zero := vec[..];
      ok := dev.ReadBlock(vec, 0, bs, first);
      if !ok { return; }
      ok := dev.ReadBlock(vec, len - bs, len, first + n - 1);
      if !ok { return; }
      LastBlock(first, n, bs);
      WindowRead(dev.Flat(), first * bs, len, bs, zero, vec[..]);
    }
  }

  /** The block an offset lies in, and the position within it. */
  function BlockOf(offset: nat, bs: nat): nat
    requires bs > 0
  {
    offset / bs
  }

  function Within(offset: nat, bs: nat): nat
    requires bs > 0
  {
    offset % bs
  }

  /** Position on the device of an offset from block `start` on. */
  function BytePos(start: nat, bs: nat, offset: nat): nat { start * bs + offset }

  /** `n` blocks hold `len` bytes from `skip` on, and no block in excess. */
  predicate Spans(n: nat, bs: nat, skip: nat, len: nat) {
    skip < bs && skip + len <= n * bs < skip + len + bs
  }

  lemma WriteReady(bs: nat, start: nat, count: nat, blocks: nat, offset: nat, len: nat)
    requires bs > 0
    ensures var first, end, skip := BlockOf(offset, bs), EndBlock(offset, len, bs), Within(offset, bs);
            && first <= end && (end == first <==> len == 0 && skip == 0) && Spans(end - first, bs, skip, len)
            && BytePos(first + start, bs, skip) == BytePos(start, bs, offset)
            && (InRange(start, count, bs, blocks, offset, len) ==> start + end <= blocks)
  {
    hide EndBlock, InRange;
    Window(offset, len, bs);
    EndInRange(start, count, bs, blocks, offset, len);
    BaseSkip(start, offset, bs);
  }

  lemma BaseSkip(startLba: nat, offset: nat, bs: nat)
    requires bs > 0
    ensures (offset / bs + startLba) * bs + offset % bs == startLba * bs + offset
  {
    assert offset == offset / bs * bs + offset % bs;
    assert (offset / bs + startLba) * bs == offset / bs * bs + startLba * bs;
  }

  lemma OverwriteAll(dst: seq<byte>, src: seq<byte>)
    requires |src| == |dst|
    ensures Overwrite(dst, 0, src) == src
  {}

  /** A slice of a slice. */
  lemma SliceSlice(flat: seq<byte>, base: nat, n: nat, ent: nat, w: nat)
    requires base + n <= |flat| && ent + w <= n
    ensures flat[base..base + n][ent..][..w] == flat[base + ent..base + ent + w]
    ensures flat[base..base + n][ent..ent + w] == flat[base + ent..base + ent + w]
  {}

  /** After reading the first and the last block into the window, these two parts of it
      are what the device holds. */
  lemma WindowRead(flat: seq<byte>, base: nat, len: nat, bs: nat, zero: seq<byte>, read: seq<byte>)
    requires bs <= |zero| == len && base + len <= |flat|
    requires read == Overwrite(Overwrite(zero, 0, flat[base..base + bs]), len - bs, flat[base + len - bs..base + len])
    requires bs < len ==> 2 * bs <= len
    ensures |read| == len && read[..bs] == flat[base..base + bs]
    ensures read[len - bs..] == flat[base + len - bs..base + len]
  {}

  /** The blocks `start..end` are those the byte range touches. */
  lemma Window(offset: nat, len: nat, bs: nat)
    requires bs > 0
    ensures offset / bs <= EndBlock(offset, len, bs)
    ensures EndBlock(offset, len, bs) == offset / bs <==> len == 0 && offset % bs == 0
    ensures offset % bs + len <= (EndBlock(offset, len, bs) - offset / bs) * bs < offset % bs + len + bs
  {
    var s, e, total := offset / bs, EndBlock(offset, len, bs), offset + len;
    CeilBounds(total, bs);
    hide EndBlock, DivCeil;
    assert e == DivCeil(total, bs) by { EndIs(offset, len, bs); }
    WindowGap(offset, len, bs, s, e);
  }

  lemma EndIs(offset: nat, len: nat, bs: nat)
    requires bs > 0
    ensures EndBlock(offset, len, bs) == DivCeil(offset + len, bs)
  {}

  lemma WindowGap(offset: nat, len: nat, bs: nat, s: nat, e: nat)
    requires bs > 0 && s == offset / bs && offset + len <= e * bs < offset + len + bs
    ensures s <= e && (e == s <==> len == 0 && offset % bs == 0)
    ensures offset % bs + len <= (e - s) * bs < offset % bs + len + bs
  {
    assert offset == s * bs + offset % bs;
    MulGap(e, s, bs);
    MulGap(s, e, bs);
    assert e >= s;
    assert (e - s) * bs == e * bs - s * bs;
  }

  lemma WholeBlocks(n: nat, bs: nat)
    requires bs > 0
    ensures DivCeil(n * bs, bs) == n && (n > 0 ==> n * bs >= bs)
    ensures n == 0 || n * bs == bs || 2 * bs <= n * bs
  {
    MulMod(n, bs);
    MulGap(0, n, bs);
    if n > 1 { MulGap(1, n, bs); }
  }

  lemma OneBlock(bs: nat)
    requires bs > 0
    ensures DivCeil(bs, bs) == 1
  {
    WholeBlocks(1, bs);
  }

  lemma LastBlock(s: nat, n: nat, bs: nat)
    requires n > 0
    ensures (s + n - 1) * bs == s * bs + n * bs - bs
  {}

  /** Writing the window back, with only the first and the last block read before,
      changes just the bytes of `data`: everything between is covered by `data`. */
  lemma WindowWrite(flat: seq<byte>, base: nat, read: seq<byte>, bs: nat, skip: nat, data: seq<byte>)
    requires bs <= |read| && base + |read| <= |flat| && skip < bs && skip + |data| <= |read| < skip + |data| + bs
    requires read[..bs] == flat[base..base + bs]
    requires read[|read| - bs..] == flat[base + |read| - bs..base + |read|]
    ensures Overwrite(flat, base, Overwrite(read, skip, data)) == Overwrite(flat, base + skip, data)
  {
    var len := |read|;
    assert read[..skip] == read[..bs][..skip] == flat[base..base + skip];
    var t := skip + |data|;
    assert read[t..] == read[len - bs..][t - (len - bs)..] == flat[base + t..base + len];
    var w := read[..skip] + data + read[t..];
    assert flat[..base] + w + flat[base + len..] == flat[..base + skip] + data + flat[base + t..];
  }

  // ---- Partitions ----

  /** A write of `len` bytes at `offset` stays inside a partition that lies on the device. */
  predicate InRange(start: nat, count: nat, bs: nat, blocks: nat, offset: nat, len: nat) {
    start + count <= blocks && offset + len <= count * bs
  }

  /** The flat bytes of the device after a write to the file that starts at block `start`. */
  function FileWrite(flat: seq<byte>, bs: nat, start: nat, offset: nat, data: seq<byte>): (r: seq<byte>)
    ensures |r| == |flat|
  {
    if BytePos(start, bs, offset) + |data| <= |flat| then Overwrite(flat, BytePos(start, bs, offset), data) else flat
  }

  lemma WriteOnFlat(flat: seq<byte>, bs: nat, start: nat, offset: nat, data: seq<byte>)
    ensures BytePos(start, bs, offset) + |data| <= |flat| ==>
              FileWrite(flat, bs, start, offset, data) == Overwrite(flat, BytePos(start, bs, offset), data)
    ensures |data| == 0 ==> FileWrite(flat, bs, start, offset, data) == flat
  {
    if start * bs + offset + |data| <= |flat| && |data| == 0 {
      assert Overwrite(flat, start * bs + offset, data) == flat;
    }
  }

  lemma EndInRange(start: nat, count: nat, bs: nat, blocks: nat, offset: nat, len: nat)
    requires bs > 0
    ensures InRange(start, count, bs, blocks, offset, len) ==> start + EndBlock(offset, len, bs) <= blocks
  {
    CeilBounds(offset + len, bs);
    var end := DivCeil(offset + len, bs);
    EndIs(offset, len, bs);
    hide DivCeil, EndBlock;
    if InRange(start, count, bs, blocks, offset, len) && end > count { MulGap(count, end, bs); }
  }

  datatype Extent = Extent(start: nat, count: nat)

  datatype PartWrite = PartWrite(part: nat, offset: nat, data: seq<byte>)

  /** Partitions on the device that do not share a block. */
  ghost predicate Partitioned(parts: seq<Extent>, bs: nat, size: nat) {
    && (forall i {:trigger parts[i]} :: 0 <= i < |parts| ==> parts[i].start * bs + parts[i].count * bs <= size)
    && (forall i, j {:trigger parts[i], parts[j]} :: 0 <= i < |parts| && 0 <= j < |parts| && i != j ==>
          parts[i].start + parts[i].count <= parts[j].start || parts[j].start + parts[j].count <= parts[i].start)
  }

  /** The bytes of one partition. */
  function PartBytes(flat: seq<byte>, bs: nat, p: Extent): seq<byte>
    requires p.start * bs + p.count * bs <= |flat|
  {
    flat[p.start * bs..p.start * bs + p.count * bs]
  }

  ghost predicate Fits(parts: seq<Extent>, bs: nat, w: PartWrite) {
    w.part < |parts| && w.offset + |w.data| <= parts[w.part].count * bs
  }

  /** The device after a sequence of writes through its partition files. */
  function WriteAll(flat: seq<byte>, bs: nat, parts: seq<Extent>, ws: seq<PartWrite>): (r: seq<byte>)
    ensures |r| == |flat|
  {
    if ws == [] then flat
    else
      var before, w := WriteAll(flat, bs, parts, ws[..|ws| - 1]), ws[|ws| - 1];
      if w.part < |parts| then FileWrite(before, bs, parts[w.part].start, w.offset, w.data) else before
  }

  /** What one partition would hold if it were a device of its own. */
  function OwnWrites(bytes: seq<byte>, ws: seq<PartWrite>, i: nat): (r: seq<byte>)
    ensures |r| == |bytes|
  {
    if ws == [] then bytes
    else
      var before, w := OwnWrites(bytes, ws[..|ws| - 1], i), ws[|ws| - 1];
      if w.part == i && w.offset + |w.data| <= |bytes| then Overwrite(before, w.offset, w.data) else before
  }

  /** After any sequence of in-range writes through several partition files, each partition
      holds exactly the result of its own writes. */
  lemma {:induction false} PartitionsIndependent(flat: seq<byte>, bs: nat, parts: seq<Extent>, ws: seq<PartWrite>,
                                                 i: nat)
    requires bs > 0 && Partitioned(parts, bs, |flat|) && i < |parts|
    requires forall k {:trigger ws[k]} :: 0 <= k < |ws| ==> Fits(parts, bs, ws[k])
    ensures PartBytes(WriteAll(flat, bs, parts, ws), bs, parts[i]) == OwnWrites(PartBytes(flat, bs, parts[i]), ws, i)
    decreases |ws|
  {
    hide Overwrite, FileWrite;
    if ws != [] {
      var n := |ws| - 1;
      PartitionsIndependent(flat, bs, parts, ws[..n], i);
      assert Fits(parts, bs, ws[n]);
      PartStep(WriteAll(flat, bs, parts, ws[..n]), bs, parts, ws[n], i);
    }
  }

  lemma PartStep(flat: seq<byte>, bs: nat, parts: seq<Extent>, w: PartWrite, i: nat)
    requires bs > 0 && Partitioned(parts, bs, |flat|) && i < |parts| && Fits(parts, bs, w)
    ensures var r := FileWrite(flat, bs, parts[w.part].start, w.offset, w.data);
            PartBytes(r, bs, parts[i]) ==
              if w.part == i then Overwrite(PartBytes(flat, bs, parts[i]), w.offset, w.data)
              else PartBytes(flat, bs, parts[i])
  {
    hide Overwrite;
    var p, q := parts[w.part], parts[i];
    if w.part == i {
      OverwriteInside(flat, p.start * bs, p.count * bs, w.offset, w.data);
    } else {
      assert parts[w.part].start + parts[w.part].count <= parts[i].start
             || parts[i].start + parts[i].count <= parts[w.part].start;
      PartitionIsolated(flat, bs, p.start, p.count, q.start, q.count, w.offset, w.data);
    }
  }

  /** Writing inside a stretch is writing to the stretch. */
  lemma OverwriteInside(flat: seq<byte>, base: nat, n: nat, offset: nat, data: seq<byte>)
    requires base + n <= |flat| && offset + |data| <= n
    ensures Overwrite(flat, base + offset, data)[base..base + n] == Overwrite(flat[base..base + n], offset, data)
  {
    hide Overwrite;
    var x, y := Overwrite(flat, base + offset, data)[base..base + n], Overwrite(flat[base..base + n], offset, data);
    forall k: nat | k < n ensures x[k] == y[k] {
      OverwriteAt(flat, base + offset, data, base + k);
      OverwriteAt(flat[base..base + n], offset, data, k);
    }
    SameBytes(x, y);
  }

  /** What was written is what a read returns, and any disjoint range keeps its bytes:
      in-range writes to one partition never reach another. */
  lemma PartitionIsolated(flat: seq<byte>, bs: nat, start: nat, count: nat, start': nat, count': nat, offset: nat,
                          data: seq<byte>)
    requires bs > 0 && offset + |data| <= count * bs
    requires start * bs + count * bs <= |flat| && start' * bs + count' * bs <= |flat|
    requires start + count <= start' || start' + count' <= start
    ensures Overwrite(flat, start * bs + offset, data)[start' * bs..start' * bs + count' * bs] ==
              flat[start' * bs..start' * bs + count' * bs]
    ensures Overwrite(flat, start * bs + offset, data)[start * bs + offset..start * bs + offset + |data|] == data
  {
    hide Overwrite;
    BlocksApart(start, count, start', count', bs);
    OverwriteSlice(flat, start * bs + offset, data, start' * bs, start' * bs + count' * bs);
    OverwriteSlice(flat, start * bs + offset, data, start * bs + offset, start * bs + offset + |data|);
  }

  lemma BlocksApart(start: nat, count: nat, start': nat, count': nat, bs: nat)
    requires start + count <= start' || start' + count' <= start
    ensures start * bs + count * bs <= start' * bs || start' * bs + count' * bs <= start * bs
  {
    assert (start + count) * bs == start * bs + count * bs && (start' + count') * bs == start' * bs + count' * bs;
    if start + count <= start' { MulLe(start + count, start', bs); } else { MulLe(start' + count', start, bs); }
  }

  function EndBlock(offset: nat, len: nat, bs: nat): nat
    requires bs > 0
  {
    DivCeil(offset + len, bs)
  }
}
