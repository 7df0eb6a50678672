// The copy-on-write block cache of libafl/syx-snapshot/syx-cow-cache.c: a
// stack of layers, each holding per-device chunk arrays indexed by the
// chunk-aligned disk offset they cache. Writes land in the newest layer;
// reads start from the backing file and let every layer, oldest first,
// overwrite the bytes it caches.
module SyxCowCache {
  import opened Common
  import opened Iov

  /** INITIAL_NB_CHUNKS_PER_DEVICE: the preallocated chunk count of a device (capacity only). */
  const INITIAL_NB_CHUNKS_PER_DEVICE: nat := 1024 * 64

  // ----- Chunk arithmetic -----

  lemma MulAtLeast(a: int, d: int)
    requires a >= 1 && d > 0
    ensures a * d >= d
  {
    assert a * d == (a - 1) * d + d;
  }

  /** Quotient and remainder are the only ones: `x == q * d + r` with `0 <= r < d` fixes both. */
  lemma DivModUnique(x: int, d: int, q: int, r: int)
    requires d > 0 && 0 <= r < d && x == q * d + r
    ensures x % d == r && x / d == q
  {
    var q', r' := x / d, x % d;
    assert x == q' * d + r';
    assert (q - q') * d == r' - r;
    if q - q' >= 1 {
      MulAtLeast(q - q', d);
    } else if q' - q >= 1 {
      MulAtLeast(q' - q, d);
    }
  }

  /** `IS_POWER_OF_TWO`: exactly one bit set. */
  predicate IsPowerOfTwo(x: nat)
    decreases x
  {
    x == 1 || (x >= 2 && x % 2 == 0 && IsPowerOfTwo(x / 2))
  }

  lemma PowersOfTwo()
    ensures IsPowerOfTwo(1) && IsPowerOfTwo(2) && IsPowerOfTwo(4096)
    ensures !IsPowerOfTwo(0) && !IsPowerOfTwo(3) && !IsPowerOfTwo(4095)
  {
  }

  /** `ROUND_DOWN(x, cs)`: the largest multiple of `cs` not above `x`. */
  function RoundDown(x: nat, cs: nat): (r: nat)
    requires cs > 0
    ensures r <= x && x - r < cs && r % cs == 0
  {
    DivModUnique(x - x % cs, cs, x / cs, 0);
    x - x % cs
  }

  lemma AddChunk(y: nat, cs: nat)
    requires cs > 0 && y % cs == 0
    ensures (y + cs) % cs == 0
  {
    DivModUnique(y + cs, cs, y / cs + 1, 0);
  }

  /** `ROUND_UP(x, cs)`: the smallest multiple of `cs` not below `x`. */
  function RoundUp(x: nat, cs: nat): (r: nat)
    requires cs > 0
    ensures x <= r && r - x < cs && r % cs == 0
    ensures x % cs == 0 ==> r == x
  {
    if x % cs == 0 then x else AddChunk(RoundDown(x, cs), cs); RoundDown(x, cs) + cs
  }

  /** The bytes `o .. o + cs - 1` of an aligned `o` are exactly those whose chunk starts at `o`. */
  lemma ModInChunk(o: nat, a: nat, cs: nat)
    requires cs > 0 && o % cs == 0 && o <= a < o + cs
    ensures a % cs == a - o && RoundDown(a, cs) == o
  {
    DivModUnique(a, cs, o / cs, a - o);
  }

  /** An aligned offset at or below `x` is at or below `ROUND_DOWN(x)`. */
  lemma AlignedBelow(y: nat, x: nat, cs: nat)
    requires cs > 0 && y % cs == 0 && y <= x
    ensures y <= RoundDown(x, cs)
  {
    var r := RoundDown(x, cs);
    if y > r {
      ModInChunk(r, y, cs);
    }
  }

  /** The distance between two aligned offsets is a whole number of chunks. */
  lemma AlignedDiff(y: nat, x: nat, cs: nat)
    requires cs > 0 && y % cs == 0 && x % cs == 0 && y <= x
    ensures (x - y) % cs == 0 && (x - y) / cs * cs == x - y
  {
    DivModUnique(x - y, cs, x / cs - y / cs, 0);
  }

  /** The middle chunks of a range run from `first` to `end`: a whole, non-negative number of them. */
  lemma MiddleCount(first: nat, end: nat, cs: nat)
    requires cs > 0 && first % cs == 0 && end % cs == 0 && first <= end
    ensures (end - first) / cs >= 0 && end - first == Chunks((end - first) / cs, cs)
  {
    AlignedDiff(first, end, cs);
    ChunksProduct((end - first) / cs, cs);
  }

  /** The bytes in `k` chunks, counted one chunk at a time. */
  function Chunks(k: nat, cs: nat): nat
  {
    if k == 0 then 0 else Chunks(k - 1, cs) + cs
  }

  lemma {:induction false} ChunksProduct(k: nat, cs: nat)
    ensures Chunks(k, cs) == k * cs
  {
    if k > 0 {
      ChunksProduct(k - 1, cs);
      assert k * cs == (k - 1) * cs + cs;
    }
  }

  /** One more middle chunk: it fits before `end`, and the next one starts aligned. */
  lemma MiddleStep(pos: nat, end: nat, left: int, cs: nat)
    requires cs > 0 && pos % cs == 0 && left >= 1 && end - pos == Chunks(left, cs)
    ensures pos + cs <= end && end - (pos + cs) == Chunks(left - 1, cs) && (pos + cs) % cs == 0
  {
    AddChunk(pos, cs);
  }

  /**
   * How a range of `bytes` bytes at `offset` splits: a head that, when it
   * does not end the range, reaches the first aligned offset; middle chunks
   * up to the last aligned offset; and a tail of `(offset + bytes) % cs`
   * bytes after it.
   */
  lemma SplitFacts(offset: nat, bytes: nat, cs: nat)
    requires cs > 0
    ensures RoundDown(offset, cs) + offset % cs == offset
    ensures offset % cs == 0 ==> RoundUp(offset, cs) == offset
    ensures offset % cs != 0 ==> RoundUp(offset, cs) == RoundDown(offset, cs) + cs
    ensures RoundDown(offset + bytes, cs) + (offset + bytes) % cs == offset + bytes
    ensures (offset + bytes) % cs < cs
    ensures RoundUp(offset, cs) <= offset + bytes ==> RoundUp(offset, cs) <= RoundDown(offset + bytes, cs)
    ensures RoundUp(offset, cs) <= RoundDown(offset + bytes, cs) ==>
              var n := (RoundDown(offset + bytes, cs) - RoundUp(offset, cs)) / cs;
              n >= 0 && RoundDown(offset + bytes, cs) - RoundUp(offset, cs) == Chunks(n, cs)
  {
    if RoundUp(offset, cs) <= offset + bytes {
      AlignedBelow(RoundUp(offset, cs), offset + bytes, cs);
    }
    if RoundUp(offset, cs) <= RoundDown(offset + bytes, cs) {
      MiddleCount(RoundUp(offset, cs), RoundDown(offset + bytes, cs), cs);
    }
  }

  /** Each byte of a splice, one at a time. */
  lemma SpliceAt(buf: seq<u8>, pos: nat, src: seq<u8>, k: nat)
    requires pos + |src| <= |buf| && k < |buf|
    ensures Splice(buf, pos, src)[k] == if pos <= k < pos + |src| then src[k - pos] else buf[k]
  {
    var r := Splice(buf, pos, src);
    if k < pos {
      assert r[..pos][k] == buf[..pos][k];
    } else if k < pos + |src| {
      assert r[pos..pos + |src|][k - pos] == src[k - pos];
    } else {
      assert r[pos + |src|..][k - pos - |src|] == buf[pos + |src|..][k - pos - |src|];
    }
  }

  // ----- Devices -----

  /** The bytes of a backing block device, by offset; the file is never written through the cache. */
  type Disk = nat -> u8

  /**
   * `SyxCowCacheDevice`: the chunks of one block device in one layer
   * (`data`, a GArray whose element size is the chunk size) and the map
   * from a chunk-aligned disk offset to the index of its chunk (`positions`).
   */
  datatype Device = Device(elemSize: nat, data: seq<seq<u8>>, positions: map<nat, nat>)

  /**
   * Every chunk holds `elemSize` bytes; every recorded offset is aligned and
   * names an existing chunk; no two offsets share a chunk.
   */
  ghost predicate DeviceValid(d: Device)
  {
    d.elemSize > 0 &&
    (forall i :: 0 <= i < |d.data| ==> |d.data[i]| == d.elemSize) &&
    (forall o :: o in d.positions ==> o % d.elemSize == 0 && d.positions[o] < |d.data|) &&
    (forall o1, o2 :: o1 in d.positions && o2 in d.positions && d.positions[o1] == d.positions[o2] ==> o1 == o2)
  }

  /** The byte the device caches at disk offset `a`, if its chunk is cached. */
  function Lookup(d: Device, a: nat): Option<u8>
    requires DeviceValid(d)
  {
    var base := RoundDown(a, d.elemSize);
    if base in d.positions then Some(d.data[d.positions[base]][a - base]) else None
  }

  /** The byte a read through one device sees at `a`: its cached byte, else the one underneath. */
  function View(d: Device, under: Disk, a: nat): u8
    requires DeviceValid(d)
  {
    match Lookup(d, a)
    case Some(b) => b
    case None => under(a)
  }

  /** A fresh empty device whose chunks hold `chunkSize` bytes, as `add_blk` creates it. */
  function EmptyDevice(chunkSize: nat): (d: Device)
    requires chunkSize > 0
    ensures DeviceValid(d) && d.elemSize == chunkSize
    ensures forall a: nat :: Lookup(d, a) == None
  {
    Device(chunkSize, [], map[])
  }

  /**
   * `get_read_chunk`: the chunk cached for an aligned offset, or nothing.
   * It holds exactly the bytes the device caches for that chunk's offsets.
   */
  function GetReadChunk(d: Device, alignedOffset: nat): (chunk: Option<seq<u8>>)
    requires DeviceValid(d) && alignedOffset % d.elemSize == 0
    ensures chunk.Some? <==> alignedOffset in d.positions
    ensures chunk.Some? ==> |chunk.value| == d.elemSize
    ensures chunk.Some? ==> forall a: nat :: alignedOffset <= a < alignedOffset + d.elemSize ==>
                              Lookup(d, a) == Some(chunk.value[a - alignedOffset])
    ensures chunk.None? ==> forall a: nat :: alignedOffset <= a < alignedOffset + d.elemSize ==> Lookup(d, a) == None
  {
    ChunkOffsets(alignedOffset, d.elemSize);
    if alignedOffset in d.positions then Some(d.data[d.positions[alignedOffset]]) else None
  }

  lemma ChunkOffsets(o: nat, cs: nat)
    requires cs > 0 && o % cs == 0
    ensures forall a: nat :: o <= a < o + cs ==> RoundDown(a, cs) == o
  {
    forall a: nat | o <= a < o + cs
      ensures RoundDown(a, cs) == o
    {
      ModInChunk(o, a, cs);
    }
  }

  /** The `cs` bytes of the disk starting at `o`: what a read of the backing file returns. */
  function DiskChunk(disk: Disk, o: nat, cs: nat): (c: seq<u8>)
    ensures |c| == cs && forall k :: 0 <= k < cs ==> c[k] == disk(o + k)
  {
    seq(cs, k requires 0 <= k < cs => disk(o + k))
  }

  /**
   * `reserve_write_chunk` with the prefill landing in the new chunk: on a
   * hit the device is unchanged and the existing chunk is returned; on a
   * miss a chunk is appended at index `|data|`, recorded for the offset, and
   * filled from `child` when there is one (else left as `blank`, the
   * uninitialised bytes). The chunks of other offsets do not move, and with
   * a child the bytes a read sees through the device do not change.
   */
  function ReserveWriteChunk(d: Device, child: Option<Disk>, blank: seq<u8>, alignedOffset: nat): (r: (Device, nat))
    requires DeviceValid(d) && alignedOffset % d.elemSize == 0 && |blank| == d.elemSize
    ensures DeviceValid(r.0) && r.0.elemSize == d.elemSize
    ensures alignedOffset in r.0.positions && r.1 == r.0.positions[alignedOffset]
    ensures r.0.positions.Keys == d.positions.Keys + {alignedOffset}
    ensures alignedOffset in d.positions ==> r.0 == d
    ensures alignedOffset !in d.positions ==> r.1 == |d.data| && r.0.data[..|d.data|] == d.data
    ensures forall a: nat :: RoundDown(a, d.elemSize) != alignedOffset ==> Lookup(r.0, a) == Lookup(d, a)
    ensures child.Some? ==> forall a: nat :: View(r.0, child.value, a) == View(d, child.value, a)
  {
    if alignedOffset in d.positions then (d, d.positions[alignedOffset])
    else
      var chunk := if child.Some? then DiskChunk(child.value, alignedOffset, d.elemSize) else blank;
      var r := Device(d.elemSize, d.data + [chunk], d.positions[alignedOffset := |d.data|]);
      AppendChunkValid(d, chunk, alignedOffset);
      AppendChunkLookup(d, chunk, alignedOffset);
      (r, |d.data|)
  }

  /** Appending a chunk for an offset not yet cached keeps the device well formed. */
  lemma AppendChunkValid(d: Device, chunk: seq<u8>, o: nat)
    requires DeviceValid(d) && o % d.elemSize == 0 && |chunk| == d.elemSize && o !in d.positions
    ensures DeviceValid(Device(d.elemSize, d.data + [chunk], d.positions[o := |d.data|]))
  {
  }

  /**
   * After appending a chunk for `o`, bytes of other chunks read as before
   * and bytes of chunk `o` read from the new chunk.
   */
  lemma AppendChunkLookup(d: Device, chunk: seq<u8>, o: nat)
    requires DeviceValid(d) && o % d.elemSize == 0 && |chunk| == d.elemSize && o !in d.positions
    ensures var r := Device(d.elemSize, d.data + [chunk], d.positions[o := |d.data|]);
      DeviceValid(r) &&
      (forall a: nat :: RoundDown(a, d.elemSize) != o ==> Lookup(r, a) == Lookup(d, a)) &&
      (forall a: nat :: RoundDown(a, d.elemSize) == o ==> Lookup(r, a) == Some(chunk[a - o]))
  {
    AppendChunkValid(d, chunk, o);
  }

  /**
   * `reserve_write_chunk` as written: on a miss the child's bytes are read
   * into `data_position`, which holds the new chunk's index cast to a
   * pointer, not into the chunk. The chunk keeps its uninitialised bytes
   * `blank`, and `strayRead` is the address the read is aimed at.
   */
  function ReserveWriteChunkAsWritten(d: Device, hasChild: bool, blank: seq<u8>, alignedOffset: nat): (r: (Device, nat, Option<nat>))
    requires DeviceValid(d) && alignedOffset % d.elemSize == 0 && |blank| == d.elemSize
    ensures DeviceValid(r.0) && r.0.elemSize == d.elemSize
    ensures alignedOffset in r.0.positions && r.1 == r.0.positions[alignedOffset]
    ensures alignedOffset in d.positions ==> r.0 == d && r.2 == None
    ensures alignedOffset !in d.positions ==> r.0.data[r.1] == blank
    ensures r.2.Some? <==> alignedOffset !in d.positions && hasChild
    ensures r.2.Some? ==> r.2.value == r.1
  {
    var res := ReserveWriteChunk(d, None, blank, alignedOffset);
    (res.0, res.1, if alignedOffset !in d.positions && hasChild then Some(res.1) else None)
  }

  /** A disk whose every byte is 7. */
  function Sevens(a: nat): u8 { 7 }

  /**
   * A one-byte write at offset 1 of an empty device with 2-byte chunks
   * reserves chunk 0 with the child: as written the read is aimed at
   * address 0 and byte 0 reads back as the uninitialised 0, where the disk
   * holds 7; with the prefill in place it reads back as 7.
   */
  lemma ReservePrefillLost()
    ensures ReserveWriteChunkAsWritten(Device(2, [], map[]), true, [0, 0], 0).2 == Some(0)
    ensures View(ReserveWriteChunkAsWritten(Device(2, [], map[]), true, [0, 0], 0).0, Sevens, 0) == 0
    ensures View(ReserveWriteChunk(Device(2, [], map[]), Some(Sevens), [0, 0], 0).0, Sevens, 0) == 7
  {
    var d := Device(2, [], map[]);
    assert RoundDown(0, 2) == 0;
    var w := ReserveWriteChunkAsWritten(d, true, [0, 0], 0).0;
    assert w.positions[0] == 0 && w.data[0] == [0, 0];
  }

  /**
   * The bytes a chunk shows when nothing was read into it: `blank` again
   * in every chunk of the disk.
   */
  function BlankFill(blank: seq<u8>, cs: nat): (fill: Disk)
    requires cs > 0 && |blank| == cs
  {
    (a: nat) => blank[a - RoundDown(a, cs)]
  }

  /**
   * The reservation as written leaves a new chunk as `blank`, which is the
   * intended reservation over a disk that holds `blank` in every chunk.
   */
  lemma AsWrittenReservation(d: Device, blank: seq<u8>, o: nat)
    requires DeviceValid(d) && o % d.elemSize == 0 && |blank| == d.elemSize
    ensures var w := ReserveWriteChunkAsWritten(d, true, blank, o);
      (w.0, w.1) == ReserveWriteChunk(d, Some(BlankFill(blank, d.elemSize)), blank, o)
  {
    var cs := d.elemSize;
    ChunkOffsets(o, cs);
    var c := DiskChunk(BlankFill(blank, cs), o, cs);
    forall k | 0 <= k < cs
      ensures c[k] == blank[k]
    {
      assert RoundDown(o + k, cs) == o;
    }
    assert c == blank;
  }

  /**
   * The copy of `qemu_iovec_to_buf` into the chunk at index `index`,
   * starting `start` bytes into it.
   */
  function CopyToChunk(d: Device, index: nat, start: nat, src: seq<u8>): (r: Device)
    requires DeviceValid(d) && index < |d.data| && start + |src| <= d.elemSize
    ensures DeviceValid(r) && r.elemSize == d.elemSize && r.positions == d.positions
    ensures forall a: nat :: Lookup(r, a) == if InCopy(d, index, start, |src|, a) then Some(src[a - RoundDown(a, d.elemSize) - start]) else Lookup(d, a)
  {
    var r := Device(d.elemSize, d.data[index := Splice(d.data[index], start, src)], d.positions);
    forall a: nat
      ensures Lookup(r, a) == if InCopy(d, index, start, |src|, a) then Some(src[a - RoundDown(a, d.elemSize) - start]) else Lookup(d, a)
    {
      var base := RoundDown(a, d.elemSize);
      if base in d.positions && d.positions[base] == index {
        SpliceAt(d.data[index], start, src, a - base);
      }
    }
    r
  }

  /** Byte `a` lies in the part of chunk `index` that a copy of `n` bytes at `start` overwrites. */
  ghost predicate InCopy(d: Device, index: nat, start: nat, n: nat, a: nat)
    requires DeviceValid(d)
  {
    var base := RoundDown(a, d.elemSize);
    base in d.positions && d.positions[base] == index && start <= a - base < start + n
  }

  /**
   * One chunk write of a write of `qiov` at `offset`: reserve the chunk at
   * `o` (with the child `disk`, or without one when the whole chunk is
   * overwritten), then copy bytes `sw .. sw + n` of `qiov` into it at
   * `start`, the chunk position of disk offset `offset + sw`. The device
   * then caches those bytes, still caches whatever it cached, and a read
   * through it sees what it saw before everywhere else.
   */
  lemma ChunkWriteView(d: Device, child: Option<Disk>, blank: seq<u8>, o: nat, start: nat,
                       qiov: seq<u8>, offset: nat, sw: nat, n: nat, disk: Disk, res: (Device, nat), r: Device)
    requires DeviceValid(d) && o % d.elemSize == 0 && |blank| == d.elemSize && start + n <= d.elemSize
    requires sw + n <= |qiov| && o + start == offset + sw
    requires child == Some(disk) || (start == 0 && n == d.elemSize)
    requires res == ReserveWriteChunk(d, child, blank, o) && r == CopyToChunk(res.0, res.1, start, qiov[sw..sw + n])
    ensures DeviceValid(r) && d.positions.Keys <= r.positions.Keys
    ensures forall a: nat :: offset + sw <= a < offset + sw + n ==> Lookup(r, a) == Some(qiov[a - offset])
    ensures forall a: nat :: !(offset + sw <= a < offset + sw + n) ==> View(r, disk, a) == View(d, disk, a)
    ensures forall a: nat :: Lookup(d, a).Some? ==> Lookup(r, a).Some?
  {
    forall a: nat
      ensures offset + sw <= a < offset + sw + n ==> Lookup(r, a) == Some(qiov[a - offset])
      ensures !(offset + sw <= a < offset + sw + n) ==> View(r, disk, a) == View(d, disk, a)
    {
      ChunkWriteAt(d, child, blank, o, start, qiov, offset, sw, n, disk, res, r, a);
    }
  }

  /** The chunk write of `ChunkWriteView`, at one disk offset `a`. */
  lemma ChunkWriteAt(d: Device, child: Option<Disk>, blank: seq<u8>, o: nat, start: nat,
                     qiov: seq<u8>, offset: nat, sw: nat, n: nat, disk: Disk, res: (Device, nat), r: Device, a: nat)
    requires DeviceValid(d) && o % d.elemSize == 0 && |blank| == d.elemSize && start + n <= d.elemSize
    requires sw + n <= |qiov| && o + start == offset + sw
    requires child == Some(disk) || (start == 0 && n == d.elemSize)
    requires res == ReserveWriteChunk(d, child, blank, o) && r == CopyToChunk(res.0, res.1, start, qiov[sw..sw + n])
    ensures offset + sw <= a < offset + sw + n ==> Lookup(r, a) == Some(qiov[a - offset])
    ensures !(offset + sw <= a < offset + sw + n) ==> View(r, disk, a) == View(d, disk, a)
  {
    if o + start <= a < o + start + n {
      CopiedByte(d, child, blank, o, start, qiov, offset, sw, n, disk, res, r, a);
    } else if o <= a < o + d.elemSize {
      KeptInChunk(d, child, blank, o, start, qiov, offset, sw, n, disk, res, r, a);
    } else {
      OutsideChunk(d, child, blank, o, start, qiov, offset, sw, n, disk, res, r, a);
    }
  }

  /** A byte the copy overwrites reads back as the byte of `qiov`. */
  lemma CopiedByte(d: Device, child: Option<Disk>, blank: seq<u8>, o: nat, start: nat,
                     qiov: seq<u8>, offset: nat, sw: nat, n: nat, disk: Disk, res: (Device, nat), r: Device, a: nat)
    requires DeviceValid(d) && o % d.elemSize == 0 && |blank| == d.elemSize && start + n <= d.elemSize
    requires sw + n <= |qiov| && o + start == offset + sw
    requires child == Some(disk) || (start == 0 && n == d.elemSize)
    requires res == ReserveWriteChunk(d, child, blank, o) && r == CopyToChunk(res.0, res.1, start, qiov[sw..sw + n])
    requires o + start <= a < o + start + n
    ensures Lookup(r, a) == Some(qiov[a - offset])
  {
    ModInChunk(o, a, d.elemSize);
    assert InCopy(res.0, res.1, start, n, a);
    assert qiov[sw..sw + n][a - o - start] == qiov[a - offset];
  }

  /** A byte of the reserved chunk that the copy leaves reads as before. */
  lemma KeptInChunk(d: Device, child: Option<Disk>, blank: seq<u8>, o: nat, start: nat,
                     qiov: seq<u8>, offset: nat, sw: nat, n: nat, disk: Disk, res: (Device, nat), r: Device, a: nat)
    requires DeviceValid(d) && o % d.elemSize == 0 && |blank| == d.elemSize && start + n <= d.elemSize
    requires sw + n <= |qiov| && o + start == offset + sw
    requires child == Some(disk) || (start == 0 && n == d.elemSize)
    requires res == ReserveWriteChunk(d, child, blank, o) && r == CopyToChunk(res.0, res.1, start, qiov[sw..sw + n])
    requires o <= a < o + d.elemSize && !(o + start <= a < o + start + n)
    ensures View(r, disk, a) == View(d, disk, a)
  {
    ModInChunk(o, a, d.elemSize);
    assert !InCopy(res.0, res.1, start, n, a);
    assert child == Some(disk);
    assert View(res.0, disk, a) == View(d, disk, a);
  }

  /** A byte outside the reserved chunk is untouched. */
  lemma OutsideChunk(d: Device, child: Option<Disk>, blank: seq<u8>, o: nat, start: nat,
                     qiov: seq<u8>, offset: nat, sw: nat, n: nat, disk: Disk, res: (Device, nat), r: Device, a: nat)
    requires DeviceValid(d) && o % d.elemSize == 0 && |blank| == d.elemSize && start + n <= d.elemSize
    requires sw + n <= |qiov| && o + start == offset + sw
    requires child == Some(disk) || (start == 0 && n == d.elemSize)
    requires res == ReserveWriteChunk(d, child, blank, o) && r == CopyToChunk(res.0, res.1, start, qiov[sw..sw + n])
    requires !(o <= a < o + d.elemSize)
    ensures Lookup(r, a) == Lookup(d, a)
  {
    if RoundDown(a, d.elemSize) == o {
      assert false;
    }
    assert !InCopy(res.0, res.1, start, n, a);
  }

  /**
   * After writing the first `n` bytes of `qiov` at `offset`, the device
   * caches them there, and a read through it sees what it saw before
   * everywhere else.
   */
  ghost predicate Written(before: Device, after: Device, disk: Disk, offset: nat, qiov: seq<u8>, n: nat)
    requires DeviceValid(before) && DeviceValid(after) && n <= |qiov|
  {
    (forall a: nat :: offset <= a < offset + n ==> Lookup(after, a) == Some(qiov[a - offset])) &&
    (forall a: nat :: !(offset <= a < offset + n) ==> View(after, disk, a) == View(before, disk, a))
  }

  /** A chunk write that puts the next `n` bytes in place continues the write. */
  lemma ExtendWritten(d0: Device, r: Device, after: Device, disk: Disk, offset: nat, qiov: seq<u8>, sw: nat, n: nat)
    requires DeviceValid(d0) && DeviceValid(r) && DeviceValid(after) && sw + n <= |qiov|
    requires Written(d0, r, disk, offset, qiov, sw)
    requires forall a: nat :: offset + sw <= a < offset + sw + n ==> Lookup(after, a) == Some(qiov[a - offset])
    requires forall a: nat :: !(offset + sw <= a < offset + sw + n) ==> View(after, disk, a) == View(r, disk, a)
    requires forall a: nat :: Lookup(r, a).Some? ==> Lookup(after, a).Some?
    ensures Written(d0, after, disk, offset, qiov, sw + n)
  {
    forall a: nat | offset <= a < offset + sw
      ensures Lookup(after, a) == Some(qiov[a - offset])
    {
      assert Lookup(r, a).Some? && Lookup(after, a).Some?;
      assert View(after, disk, a) == View(r, disk, a);
    }
  }

  /**
   * One chunk of a write: `reserve_write_chunk` for the chunk at `o`, then
   * `qemu_iovec_to_buf` of bytes `sw .. sw + n` of `qiov` into it at
   * `start`. It continues a write of `qiov` at `offset`: `n` more bytes are
   * in place.
   */
  method WriteOneChunk(ghost d0: Device, r: Device, child: Option<Disk>, blank: seq<u8>, ghost disk: Disk,
                       ghost offset: nat, qiov: seq<u8>, sw: nat, o: nat, start: nat, n: nat)
    returns (after: Device)
    requires DeviceValid(d0) && DeviceValid(r) && o % r.elemSize == 0 && |blank| == r.elemSize
    requires start + n <= r.elemSize && sw + n <= |qiov| && o + start == offset + sw
    requires child == Some(disk) || (start == 0 && n == r.elemSize)
    requires Written(d0, r, disk, offset, qiov, sw) && d0.positions.Keys <= r.positions.Keys
    ensures DeviceValid(after) && after.elemSize == r.elemSize
    ensures Written(d0, after, disk, offset, qiov, sw + n) && d0.positions.Keys <= after.positions.Keys
  {
    var res := ReserveWriteChunk(r, child, blank, o);
    after := CopyToChunk(res.0, res.1, start, qiov[sw..sw + n]);
    ChunkWriteView(r, child, blank, o, start, qiov, offset, sw, n, disk, res, after);
    ExtendWritten(d0, r, after, disk, offset, qiov, sw, n);
  }

  /**
   * The middle loop of `write_chunk_to_cache_layer_device`: `nb` whole
   * chunks from the aligned offset `offset + sw0` up to `endAligned`, each
   * reserved without prefill and overwritten.
   */
  method WriteMiddleChunks(ghost d: Device, r0: Device, qiov: seq<u8>, ghost child: Disk, blank: seq<u8>,
                           offset: nat, sw0: nat, ghost endAligned: nat, nb: nat)
    returns (r: Device, sizeWritten: nat)
    requires DeviceValid(d) && DeviceValid(r0) && |blank| == r0.elemSize && d.positions.Keys <= r0.positions.Keys
    requires (offset + sw0) % r0.elemSize == 0 && endAligned <= offset + |qiov|
    requires endAligned - (offset + sw0) == Chunks(nb, r0.elemSize)
    requires Written(d, r0, child, offset, qiov, sw0)
    ensures DeviceValid(r) && r.elemSize == r0.elemSize && d.positions.Keys <= r.positions.Keys
    ensures offset + sizeWritten == endAligned && Written(d, r, child, offset, qiov, sizeWritten)
  {
    var cs := r0.elemSize;
    r, sizeWritten := r0, sw0;
    var i: nat := 0;
    while i < nb
      invariant i <= nb
      invariant DeviceValid(r) && r.elemSize == cs && d.positions.Keys <= r.positions.Keys
      invariant (offset + sizeWritten) % cs == 0
      invariant endAligned - (offset + sizeWritten) == Chunks(nb - i, cs)
      invariant Written(d, r, child, offset, qiov, sizeWritten)
    {
      MiddleStep(offset + sizeWritten, endAligned, nb - i, cs);
      r := WriteOneChunk(d, r, None, blank, child, offset, qiov, sizeWritten, offset + sizeWritten, 0, cs);
      sizeWritten := sizeWritten + cs;
      i := i + 1;
    }
  }

  /**
   * `write_chunk_to_cache_layer_device` with the intended prefill: write
   * `bytes` bytes of `qiov` at `offset` as an unaligned head (prefilled
   * from the child), whole middle chunks (not prefilled) and an unaligned
   * tail (prefilled), and return the count written, which is `bytes`. The
   * device then reads back the written bytes over what it showed before;
   * no cached chunk is dropped.
   */
  method WriteChunkToCacheLayerDeviceCorrected(d: Device, qiov: seq<u8>, child: Disk, blank: seq<u8>,
                                      offset: nat, bytes: nat, chunkSize: nat)
    returns (r: Device, sizeWritten: nat)
    requires DeviceValid(d) && d.elemSize == chunkSize && IsPowerOfTwo(chunkSize)
    requires |blank| == chunkSize && bytes <= |qiov|
    ensures DeviceValid(r) && r.elemSize == chunkSize
    ensures sizeWritten == bytes
    ensures d.positions.Keys <= r.positions.Keys
    ensures Written(d, r, child, offset, qiov, bytes)
  {
    var cs := chunkSize;
    sizeWritten := 0;
    r := d;
    var beginAligned := RoundDown(offset, cs);
    var beginRemainder := offset % cs;
    var endAligned := RoundDown(offset + bytes, cs);
    var endRemainder := (offset + bytes) % cs;
    // The difference of two aligned offsets: Euclidean and truncating division agree.
    var nbMiddleChunks: int := (endAligned - RoundUp(offset, cs)) / cs;
    SplitFacts(offset, bytes, cs);
    var alignedSize := RoundUp(offset + bytes, cs) - beginAligned;
    AlignedDiff(beginAligned, RoundUp(offset + bytes, cs), cs);
    assert alignedSize % cs == 0;

    if beginRemainder != 0 {
      var sizeToWrite := Min(beginAligned + cs - offset, bytes);
      r := WriteOneChunk(d, r, Some(child), blank, child, offset, qiov, sizeWritten, beginAligned, beginRemainder, sizeToWrite);
      sizeWritten := sizeWritten + sizeToWrite;
      if sizeWritten == bytes {
        return;
      }
    }
    // Here the written bytes end at the first aligned offset of the range.
    assert offset + sizeWritten == RoundUp(offset, cs);

    r, sizeWritten := WriteMiddleChunks(d, r, qiov, child, blank, offset, sizeWritten, endAligned, nbMiddleChunks);
    assert offset + sizeWritten == endAligned;

    if endRemainder != 0 {
      var sizeToWrite := bytes - sizeWritten;
      r := WriteOneChunk(d, r, Some(child), blank, child, offset, qiov, sizeWritten, endAligned, 0, sizeToWrite);
      sizeWritten := sizeWritten + sizeToWrite;
    }
  }

  /**
   * After writing the first `n` bytes of `qiov` at `offset` as the code
   * does: the device caches them there; outside them a byte it cached is
   * unchanged, and a byte it did not cache is still not cached or is now
   * the uninitialised byte of a fresh chunk.
   */
  ghost predicate WrittenAsWritten(before: Device, after: Device, blank: seq<u8>, offset: nat, qiov: seq<u8>, n: nat)
    requires DeviceValid(before) && DeviceValid(after) && n <= |qiov| && |blank| == before.elemSize
  {
    (forall a: nat :: offset <= a < offset + n ==> Lookup(after, a) == Some(qiov[a - offset])) &&
    (forall a: nat :: !(offset <= a < offset + n) && Lookup(before, a).Some? ==> Lookup(after, a) == Lookup(before, a)) &&
    (forall a: nat :: !(offset <= a < offset + n) && Lookup(before, a).None? ==>
       Lookup(after, a) == None || Lookup(after, a) == Some(blank[a - RoundDown(a, before.elemSize)]))
  }

  /**
   * A write that keeps every read the same over a disk holding `blank` in
   * every chunk, and drops no cached chunk, is a write as the code does it.
   */
  lemma BlankFillWritten(before: Device, after: Device, blank: seq<u8>, offset: nat, qiov: seq<u8>, n: nat)
    requires DeviceValid(before) && DeviceValid(after) && n <= |qiov| && |blank| == before.elemSize
    requires after.elemSize == before.elemSize && before.positions.Keys <= after.positions.Keys
    requires Written(before, after, BlankFill(blank, before.elemSize), offset, qiov, n)
    ensures WrittenAsWritten(before, after, blank, offset, qiov, n)
  {
    var fill := BlankFill(blank, before.elemSize);
    forall a: nat | !(offset <= a < offset + n)
      ensures Lookup(before, a).Some? ==> Lookup(after, a) == Lookup(before, a)
      ensures Lookup(before, a).None? ==>
        Lookup(after, a) == None || Lookup(after, a) == Some(blank[a - RoundDown(a, before.elemSize)])
    {
      assert View(after, fill, a) == View(before, fill, a);
    }
  }

  /**
   * `write_chunk_to_cache_layer_device` as written: the same head, middle
   * and tail writes, but a fresh head or tail chunk is never filled from
   * the child (`ReserveWriteChunkAsWritten`), so it keeps `blank`. This is
   * the intended write over a disk holding `blank` in every chunk
   * (`AsWrittenReservation`). The written bytes read back; elsewhere the
   * device may now show uninitialised bytes where it showed the disk.
   */
  method WriteChunkToCacheLayerDevice(d: Device, qiov: seq<u8>, blank: seq<u8>,
                                      offset: nat, bytes: nat, chunkSize: nat)
    returns (r: Device, sizeWritten: nat)
    requires DeviceValid(d) && d.elemSize == chunkSize && IsPowerOfTwo(chunkSize)
    requires |blank| == chunkSize && bytes <= |qiov|
    ensures DeviceValid(r) && r.elemSize == chunkSize
    ensures sizeWritten == bytes
    ensures d.positions.Keys <= r.positions.Keys
    ensures WrittenAsWritten(d, r, blank, offset, qiov, bytes)
  {
    r, sizeWritten := WriteChunkToCacheLayerDeviceCorrected(d, qiov, BlankFill(blank, chunkSize), blank, offset, bytes, chunkSize);
    BlankFillWritten(d, r, blank, offset, qiov, bytes);
  }

  /**
   * After reading `n` bytes at `offset` through the device into a buffer
   * that held `before`: every byte the device caches replaces the buffer's,
   * every other byte is left as it was.
   */
  ghost predicate Overlaid(d: Device, before: seq<u8>, after: seq<u8>, offset: nat, n: nat)
    requires DeviceValid(d)
  {
    |after| == |before| &&
    forall k :: 0 <= k < |after| ==>
      after[k] == if k < n && Lookup(d, offset + k).Some? then Lookup(d, offset + k).value else before[k]
  }

  /**
   * One chunk read of a read at `offset`: copy `n` bytes of the chunk at
   * `o`, from `start` on, into the buffer at `pos` (the buffer position of
   * disk offset `o + start`) when the chunk is cached, else leave the buffer.
   */
  function ReadChunk(d: Device, buf: seq<u8>, offset: nat, pos: nat, o: nat, start: nat, n: nat): (r: seq<u8>)
    requires DeviceValid(d) && o % d.elemSize == 0 && start + n <= d.elemSize && pos + n <= |buf|
    requires o + start == offset + pos
    ensures |r| == |buf|
    ensures forall k :: 0 <= k < |buf| ==>
      r[k] == if pos <= k < pos + n && Lookup(d, offset + k).Some? then Lookup(d, offset + k).value else buf[k]
  {
    var chunk := GetReadChunk(d, o);
    if chunk.Some? then
      var src := chunk.value[start..start + n];
      var r := Splice(buf, pos, src);
      assert forall k :: 0 <= k < |buf| ==> r[k] == if pos <= k < pos + n then src[k - pos] else buf[k] by {
        forall k | 0 <= k < |buf| {
          SpliceAt(buf, pos, src, k);
        }
      }
      r
    else
      buf
  }

  /**
   * One chunk of a read of `bytes` bytes at `offset` into a buffer that
   * held `q0`: `get_read_chunk` for the chunk at `o`, then, on a hit,
   * `qemu_iovec_from_buf` of `n` of its bytes from `start` on into the
   * buffer at `sr`. `n` more bytes of the buffer are overlaid.
   */
  method ReadOneChunk(d: Device, ghost q0: seq<u8>, buf: seq<u8>, offset: nat, sr: nat, o: nat, start: nat, n: nat)
    returns (after: seq<u8>)
    requires DeviceValid(d) && o % d.elemSize == 0 && start + n <= d.elemSize && sr + n <= |buf|
    requires o + start == offset + sr
    requires Overlaid(d, q0, buf, offset, sr)
    ensures Overlaid(d, q0, after, offset, sr + n)
  {
    after := ReadChunk(d, buf, offset, sr, o, start, n);
  }

  /**
   * The middle loop of `read_chunk_from_cache_layer_device`: `nb` whole
   * chunks from the aligned offset `offset + sr0` up to `endAligned`.
   */
  method ReadMiddleChunks(d: Device, ghost q0: seq<u8>, buf0: seq<u8>, offset: nat, sr0: nat,
                          ghost endAligned: nat, nb: nat)
    returns (buf: seq<u8>, sizeRead: nat)
    requires DeviceValid(d) && (offset + sr0) % d.elemSize == 0 && endAligned <= offset + |buf0|
    requires endAligned - (offset + sr0) == Chunks(nb, d.elemSize)
    requires Overlaid(d, q0, buf0, offset, sr0)
    ensures offset + sizeRead == endAligned && Overlaid(d, q0, buf, offset, sizeRead)
  {
    var cs := d.elemSize;
    buf, sizeRead := buf0, sr0;
    var i: nat := 0;
    while i < nb
      invariant i <= nb && |buf| == |buf0|
      invariant (offset + sizeRead) % cs == 0
      invariant endAligned - (offset + sizeRead) == Chunks(nb - i, cs)
      invariant Overlaid(d, q0, buf, offset, sizeRead)
    {
      MiddleStep(offset + sizeRead, endAligned, nb - i, cs);
      buf := ReadOneChunk(d, q0, buf, offset, sizeRead, offset + sizeRead, 0, cs);
      sizeRead := sizeRead + cs;
      i := i + 1;
    }
  }

  /**
   * `read_chunk_from_cache_layer_device`: walk the same head, middle and
   * tail chunks as a write, copying the cached ones into `qiov`; return the
   * count read, which is `bytes`.
   */
  method ReadChunkFromCacheLayerDevice(d: Device, qiov: seq<u8>, offset: nat, bytes: nat, chunkSize: nat)
    returns (buf: seq<u8>, sizeRead: nat)
    requires DeviceValid(d) && d.elemSize == chunkSize && IsPowerOfTwo(chunkSize)
    requires bytes <= |qiov|
    ensures sizeRead == bytes
    ensures Overlaid(d, qiov, buf, offset, bytes)
  {
    var cs := chunkSize;
    sizeRead := 0;
    buf := qiov;
    var beginAligned := RoundDown(offset, cs);
    var beginRemainder := offset % cs;
    var endAligned := RoundDown(offset + bytes, cs);
    var endRemainder := (offset + bytes) % cs;
    var nbMiddleChunks: int := (endAligned - RoundUp(offset, cs)) / cs;
    SplitFacts(offset, bytes, cs);

    if beginRemainder != 0 {
      var sizeToRead := Min(beginAligned + cs - offset, bytes);
      buf := ReadOneChunk(d, qiov, buf, offset, sizeRead, beginAligned, beginRemainder, sizeToRead);
      sizeRead := sizeRead + sizeToRead;
      if sizeRead == bytes {
        return;
      }
    }
    assert offset + sizeRead == RoundUp(offset, cs);

    buf, sizeRead := ReadMiddleChunks(d, qiov, buf, offset, sizeRead, endAligned, nbMiddleChunks);
    assert offset + sizeRead == endAligned;

    if endRemainder != 0 {
      var sizeToRead := bytes - sizeRead;
      assert sizeToRead == endRemainder;
      buf := ReadOneChunk(d, qiov, buf, offset, sizeRead, endAligned, 0, sizeToRead);
      sizeRead := sizeRead + sizeToRead;
    }
  }

  // ----- Layers and the cache -----

  /**
   * `SyxCowCacheLayer`: the devices of one layer (`blks`, indexed by the
   * device id), their chunk size and the chunk budget `max_nb_chunks`.
   */
  datatype Layer = Layer(blks: seq<Device>, chunkSize: nat, maxNbChunks: nat)

  /** The chunk size passed the checks of `push`, and every device uses it. */
  ghost predicate LayerValid(l: Layer)
  {
    IsPowerOfTwo(l.chunkSize) && l.maxNbChunks % l.chunkSize == 0 &&
    forall i :: 0 <= i < |l.blks| ==> DeviceValid(l.blks[i]) && l.blks[i].elemSize == l.chunkSize
  }

  /** Every layer is valid and has a device `id`. */
  ghost predicate HasDevice(layers: seq<Layer>, id: nat)
  {
    forall j :: 0 <= j < |layers| ==> LayerValid(layers[j]) && id < |layers[j].blks|
  }

  /**
   * The byte a read of device `id` sees at `a` through the layers, newest
   * first: the newest layer caching it wins, and the disk shows where none
   * does.
   */
  ghost function LayeredView(layers: seq<Layer>, id: nat, disk: Disk, a: nat): u8
    requires HasDevice(layers, id)
    decreases |layers|
  {
    if layers == [] then disk(a)
    else
      match Lookup(layers[0].blks[id], a)
      case Some(b) => b
      case None => LayeredView(layers[1..], id, disk, a)
  }

  /** A layer whose device `id` caches nothing shows the layers below it. */
  lemma EmptyLayerIsTransparent(layers: seq<Layer>, id: nat, disk: Disk, a: nat)
    requires HasDevice(layers, id) && layers != [] && layers[0].blks[id].positions == map[]
    ensures LayeredView(layers, id, disk, a) == LayeredView(layers[1..], id, disk, a)
  {
  }

  /**
   * After a write of `qiov` at `offset` into the newest layer, a read
   * through all the layers sees the written bytes, whatever the older
   * layers cache.
   */
  lemma ReadAfterWrite(layers: seq<Layer>, layers': seq<Layer>, id: nat, disk: Disk, blank: seq<u8>,
                       offset: nat, qiov: seq<u8>, bytes: nat, a: nat)
    requires HasDevice(layers, id) && HasDevice(layers', id) && layers != [] && |layers'| == |layers|
    requires bytes <= |qiov| && offset <= a < offset + bytes && |blank| == layers[0].blks[id].elemSize
    requires WrittenAsWritten(layers[0].blks[id], layers'[0].blks[id], blank, offset, qiov, bytes)
    ensures LayeredView(layers', id, disk, a) == qiov[a - offset]
  {
  }

  /**
   * With one layer, a write keeps a read through the cache equal to the
   * clone that receives the same writes (the comparison of
   * `syx_cow_cache_check_bs_equality`): bytes outside the written range are
   * read as before, those inside as written.
   */
  lemma {:induction false} WriteKeepsClone(l: Layer, l': Layer, id: nat, disk: Disk, clone: Disk, offset: nat, qiov: seq<u8>, bytes: nat, a: nat)
    requires LayerValid(l) && LayerValid(l') && id < |l.blks| && id < |l'.blks| && bytes <= |qiov|
    requires Written(l.blks[id], l'.blks[id], disk, offset, qiov, bytes)
    requires HasDevice([l], id) && HasDevice([l'], id)
    requires LayeredView([l], id, disk, a) == clone(a)
    ensures LayeredView([l'], id, disk, a) == if offset <= a < offset + bytes then qiov[a - offset] else clone(a)
  {
    assert [l][1..] == [] && [l'][1..] == [];
    assert LayeredView([l], id, disk, a) == View(l.blks[id], disk, a);
    assert LayeredView([l'], id, disk, a) == View(l'.blks[id], disk, a);
  }

  /**
   * `write_chunk_to_cache_layer`: the write as written into device `id` of
   * the layer, at the layer's chunk size; the other devices are left.
   */
  method WriteChunkToCacheLayer(l: Layer, blank: seq<u8>, id: nat, qiov: seq<u8>, offset: nat, bytes: nat)
    returns (l': Layer)
    requires LayerValid(l) && id < |l.blks| && |blank| == l.chunkSize && bytes <= |qiov|
    ensures LayerValid(l') && l'.chunkSize == l.chunkSize && l'.maxNbChunks == l.maxNbChunks
    ensures |l'.blks| == |l.blks| && forall i :: 0 <= i < |l.blks| && i != id ==> l'.blks[i] == l.blks[i]
    ensures WrittenAsWritten(l.blks[id], l'.blks[id], blank, offset, qiov, bytes)
  {
    var dev, sizeWritten := WriteChunkToCacheLayerDevice(l.blks[id], qiov, blank, offset, bytes, l.chunkSize);
    l' := l.(blks := l.blks[id := dev]);
  }

  /** `write_chunk_to_cache_layer` over the intended device write, prefilling from `child`. */
  method WriteChunkToCacheLayerCorrected(l: Layer, child: Disk, blank: seq<u8>, id: nat, qiov: seq<u8>, offset: nat, bytes: nat)
    returns (l': Layer)
    requires LayerValid(l) && id < |l.blks| && |blank| == l.chunkSize && bytes <= |qiov|
    ensures LayerValid(l') && l'.chunkSize == l.chunkSize && l'.maxNbChunks == l.maxNbChunks
    ensures |l'.blks| == |l.blks| && forall i :: 0 <= i < |l.blks| && i != id ==> l'.blks[i] == l.blks[i]
    ensures Written(l.blks[id], l'.blks[id], child, offset, qiov, bytes)
  {
    var dev, sizeWritten := WriteChunkToCacheLayerDeviceCorrected(l.blks[id], qiov, child, blank, offset, bytes, l.chunkSize);
    l' := l.(blks := l.blks[id := dev]);
  }

  /** `read_chunk_from_cache_layer`: the read through device `id` of the layer. */
  method ReadChunkFromCacheLayer(l: Layer, id: nat, qiov: seq<u8>, offset: nat, bytes: nat) returns (buf: seq<u8>)
    requires LayerValid(l) && id < |l.blks| && bytes <= |qiov|
    ensures Overlaid(l.blks[id], qiov, buf, offset, bytes)
  {
    var sizeRead;
    buf, sizeRead := ReadChunkFromCacheLayerDevice(l.blks[id], qiov, offset, bytes, l.chunkSize);
  }

  /**
   * The queue read by following the forward links `next` from `first`
   * (-1 is NULL), for at most `fuel` steps.
   */
  function Walk(nodes: seq<Layer>, next: seq<int>, first: int, fuel: nat): (q: seq<Layer>)
    requires |next| == |nodes| && forall i :: 0 <= i < |next| ==> -1 <= next[i] < |next|
    requires -1 <= first < |next|
    ensures |q| <= fuel
    ensures forall x :: x in q ==> x in nodes
    decreases fuel
  {
    if first == -1 || fuel == 0 then [] else [nodes[first]] + Walk(nodes, next, next[first], fuel - 1)
  }

  /**
   * The layers of the cache after `push` as written: the new layer, then
   * only the first of the older ones.
   */
  function PushedAsWritten(older: seq<Layer>, top: Layer): (r: seq<Layer>)
    ensures |older| >= 1 ==> |r| == 2 && r[1] == older[0]
    ensures |older| == 0 ==> |r| == 1
    ensures r[0] == top
  {
    [top] + older[..if older == [] then 0 else 1]
  }

  /** Pushing onto a cache of three layers keeps one of them. */
  lemma PushDropsOlderLayers(a: Layer, b: Layer, c: Layer, top: Layer)
    ensures PushedAsWritten([a, b, c], top) == [top, a]
    ensures |PushedAsWritten([a, b, c], top)| < |[top] + [a, b, c]|
  {
  }

  /** `SyxCowCache`: the queue of layers, newest first. */
  class CowCache {
    var layers: seq<Layer>

    ghost predicate Valid()
      reads this
    {
      forall j :: 0 <= j < |layers| ==> LayerValid(layers[j])
    }

    /** `syx_cow_cache_new`: no layers. */
    constructor ()
      ensures Valid() && layers == []
    {
      layers := [];
    }

    /**
     * `syx_cow_cache_add_blk`: the top layer (there must be one) gets one
     * more device, empty, whose chunks have the layer's chunk size.
     */
    method AddBlk()
      requires Valid() && layers != []
      modifies this
      ensures Valid() && |layers| == |old(layers)| && layers[1..] == old(layers)[1..]
      ensures layers[0] == old(layers)[0].(blks := old(layers)[0].blks + [EmptyDevice(old(layers)[0].chunkSize)])
    {
      var layer := layers[0];
      var dev := EmptyDevice(layer.chunkSize);
      layers := layers[0 := layer.(blks := layer.blks + [dev])];
    }

    /**
     * `syx_cow_cache_push` as written. The loop meant to re-insert the
     * older layers into a new cache inserts the first one at the head of
     * the new cache, which sets its forward link to NULL and ends the walk
     * of the old queue; the new layer (whose chunk size must be a power of
     * two dividing `max_size`) then goes in front of that first layer. The
     * backward links are not followed here.
     */
    method Push(chunkSize: nat, maxSize: nat) returns (newScc: CowCache)
      requires Valid() && IsPowerOfTwo(chunkSize) && maxSize % chunkSize == 0
      modifies this
      ensures fresh(newScc) && Valid() && newScc.Valid()
      ensures layers == PushedAsWritten(old(layers), Layer([], chunkSize, maxSize))
      ensures newScc.layers == old(layers)[..if old(layers) == [] then 0 else 1]
    {
      var n := |layers|;
      // Node i is layers[i]; node n is the new layer; -1 is NULL.
      var nodes := layers + [Layer([], chunkSize, maxSize)];
      var next: seq<int> := seq(n + 1, i => if i + 1 < n then i + 1 else -1);
      var first: int := if n == 0 then -1 else 0;
      var newFirst: int := -1;
      newScc := new CowCache();
      var layer := first;
      ghost var steps := 0;
      while layer != -1
        invariant |next| == n + 1 && forall i :: 0 <= i < n + 1 ==> -1 <= next[i] < n + 1
        invariant steps <= 1 && -1 <= layer < n + 1 && -1 <= newFirst < n + 1
        invariant steps == 0 ==> layer == first && newFirst == -1 &&
                                 forall i :: 0 <= i < n + 1 ==> next[i] == if i + 1 < n then i + 1 else -1
        invariant steps == 1 ==> layer == -1 && n > 0 && newFirst == 0 && next[0] == -1 &&
                                 forall i :: 1 <= i < n + 1 ==> next[i] == if i + 1 < n then i + 1 else -1
        decreases 1 - steps
      {
        // QTAILQ_INSERT_HEAD(&new_scc->layers, layer, next)
        next := next[layer := newFirst];
        newFirst := layer;
        // QTAILQ_FOREACH steps along the link just overwritten.
        layer := next[layer];
        steps := steps + 1;
      }
      // QTAILQ_INSERT_HEAD(&scc->layers, new_layer, next)
      next := next[n := first];
      first := n;
      var older := layers;
      layers := Walk(nodes, next, first, n + 1);
      newScc.layers := Walk(nodes, next, newFirst, n + 1);
      assert layers == [nodes[n]] + Walk(nodes, next, next[n], n);
      if n > 0 {
        assert Walk(nodes, next, 0, n) == [older[0]] + Walk(nodes, next, -1, n - 1);
        assert newScc.layers == [older[0]] + Walk(nodes, next, -1, n);
      }
    }

    /**
     * `syx_cow_cache_push` with the older layers left in place: the new
     * layer goes on top of all of them.
     */
    method PushCorrected(chunkSize: nat, maxSize: nat)
      requires Valid() && IsPowerOfTwo(chunkSize) && maxSize % chunkSize == 0
      modifies this
      ensures Valid()
      ensures layers == [Layer([], chunkSize, maxSize)] + old(layers)
    {
      layers := [Layer([], chunkSize, maxSize)] + layers;
    }

    /**
     * `syx_cow_cache_flush_highest_layer`: every device of the top layer
     * drops its recorded positions and its chunks; older layers are left.
     */
    method FlushHighestLayer()
      requires Valid() && layers != []
      modifies this
      ensures Valid() && |layers| == |old(layers)| && layers[1..] == old(layers)[1..]
      ensures layers[0].chunkSize == old(layers)[0].chunkSize && layers[0].maxNbChunks == old(layers)[0].maxNbChunks
      ensures |layers[0].blks| == |old(layers)[0].blks|
      ensures forall i :: 0 <= i < |layers[0].blks| ==>
                layers[0].blks[i] == Device(old(layers)[0].blks[i].elemSize, [], map[])
    {
      var top := layers[0];
      var blks := top.blks;
      var i := 0;
      while i < |blks|
        invariant i <= |blks| == |top.blks|
        invariant forall k :: 0 <= k < i ==> blks[k] == Device(top.blks[k].elemSize, [], map[])
        invariant forall k :: i <= k < |blks| ==> blks[k] == top.blks[k]
      {
        blks := blks[i := Device(blks[i].elemSize, [], map[])];
        i := i + 1;
      }
      layers := layers[0 := top.(blks := blks)];
    }

    /**
     * `syx_cow_cache_do_preadv`: read the backing file, then let every
     * layer from the oldest to the newest overwrite the bytes it caches.
     * Each byte read is the one of the newest layer caching it, else the
     * disk's; the buffer past `bytes` is left alone; `bytes` is returned.
     */
    method DoPreadv(id: nat, disk: Disk, offset: nat, bytes: nat, qiov: seq<u8>) returns (buf: seq<u8>, ret: nat)
      requires Valid() && layers != [] && HasDevice(layers, id) && bytes <= |qiov|
      ensures ret == bytes && |buf| == |qiov|
      ensures forall k :: 0 <= k < bytes ==> buf[k] == LayeredView(layers, id, disk, offset + k)
      ensures forall k :: bytes <= k < |qiov| ==> buf[k] == qiov[k]
    {
      buf := Splice(qiov, 0, DiskChunk(disk, offset, bytes));
      forall k | 0 <= k < |qiov| {
        SpliceAt(qiov, 0, DiskChunk(disk, offset, bytes), k);
      }
      var i := |layers|;
      while i > 0
        invariant 0 <= i <= |layers| && |buf| == |qiov| && HasDevice(layers[i..], id)
        invariant forall k :: 0 <= k < bytes ==> buf[k] == LayeredView(layers[i..], id, disk, offset + k)
        invariant forall k :: bytes <= k < |qiov| ==> buf[k] == qiov[k]
      {
        assert layers[i - 1..][1..] == layers[i..];
        buf := ReadChunkFromCacheLayer(layers[i - 1], id, buf, offset, bytes);
        i := i - 1;
      }
      ret := bytes;
    }

    /**
     * `syx_cow_cache_co_pwritev`: write `bytes` bytes of `qiov` at `offset`
     * into device `id` of the top layer, as written (a fresh partial chunk
     * is not prefilled from the backing file); older layers and other
     * devices are left; `bytes` is returned.
     */
    method CoPwritev(id: nat, blank: seq<u8>, offset: nat, bytes: nat, qiov: seq<u8>) returns (ret: nat)
      requires Valid() && layers != [] && id < |layers[0].blks| && |blank| == layers[0].chunkSize && bytes <= |qiov|
      modifies this
      ensures Valid() && ret == bytes
      ensures |layers| == |old(layers)| && layers[1..] == old(layers)[1..]
      ensures layers[0].chunkSize == old(layers)[0].chunkSize && |layers[0].blks| == |old(layers)[0].blks|
      ensures forall i :: 0 <= i < |layers[0].blks| && i != id ==> layers[0].blks[i] == old(layers)[0].blks[i]
      ensures WrittenAsWritten(old(layers)[0].blks[id], layers[0].blks[id], blank, offset, qiov, bytes)
    {
      var top := WriteChunkToCacheLayer(layers[0], blank, id, qiov, offset, bytes);
      layers := layers[0 := top];
      ret := bytes;
    }

    /**
     * `syx_cow_cache_co_pwritev` over the intended write, prefilling
     * partial chunks from the backing file `disk`.
     */
    method CoPwritevCorrected(id: nat, disk: Disk, blank: seq<u8>, offset: nat, bytes: nat, qiov: seq<u8>) returns (ret: nat)
      requires Valid() && layers != [] && id < |layers[0].blks| && |blank| == layers[0].chunkSize && bytes <= |qiov|
      modifies this
      ensures Valid() && ret == bytes
      ensures |layers| == |old(layers)| && layers[1..] == old(layers)[1..]
      ensures layers[0].chunkSize == old(layers)[0].chunkSize && |layers[0].blks| == |old(layers)[0].blks|
      ensures forall i :: 0 <= i < |layers[0].blks| && i != id ==> layers[0].blks[i] == old(layers)[0].blks[i]
      ensures Written(old(layers)[0].blks[id], layers[0].blks[id], disk, offset, qiov, bytes)
    {
      var top := WriteChunkToCacheLayerCorrected(layers[0], disk, blank, id, qiov, offset, bytes);
      layers := layers[0 := top];
      ret := bytes;
    }
  }
}
