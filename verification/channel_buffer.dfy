// The in-memory migration channel of libafl/syx-snapshot/channel-buffer-writeback.c:
// a growable-free byte buffer with a usage mark and a cursor, which copies
// its used bytes back into a caller-supplied buffer when it is closed or
// finalized.
module ChannelBuffer {
  import opened Common
  import opened Iov

  /** The caller's buffer (`writeback_buf`) and the size_t `*writeback_buf_usage` points to. */
  class HostBuffer {
    var bytes: seq<u8>
    var usage: nat

    constructor (size: nat)
      ensures |bytes| == size && usage == 0
    {
      bytes := seq(size, _ => 0);
      usage := 0;
    }
  }

  /** The `whence` argument of a seek. */
  datatype Whence = SeekSet | SeekCur | SeekEnd

  /** The position a seek moves to, before the bounds assertion. */
  function SeekTarget(offset: int, whence: Whence, cursor: nat, usage: nat): (pos: int)
    ensures whence == SeekSet ==> pos == offset
    ensures whence == SeekCur ==> pos - offset == cursor
    ensures whence == SeekEnd ==> pos - offset == usage
  {
    match whence
    case SeekSet => offset
    case SeekCur => cursor + offset
    case SeekEnd => usage + offset
  }

  /** `usage` after a write of `total` bytes, as the write loop computes it. */
  function WritevUsageAsWritten(usage: nat, total: nat): (u: nat)
    ensures u - total == usage
  {
    usage + total
  }

  /**
   * `usage` after a write that leaves the cursor at `offset`: the used part
   * grows only when the write runs past it.
   */
  function WritevUsage(usage: nat, offset: nat): (u: nat)
    ensures u >= usage && u >= offset && (u == usage || u == offset)
  {
    if offset > usage then offset else usage
  }

  /**
   * A write over already-used bytes (after a seek back) satisfies both
   * assertions of the write, yet the usage it records runs past the
   * capacity, so a later close copies bytes from beyond the buffer.
   */
  lemma WritevOverrunsCapacity()
    ensures var capacity, usage, offset, total := 16, 16, 0, 8;
      offset + total <= capacity && offset <= usage && usage <= capacity &&
      WritevUsageAsWritten(usage, total) > capacity &&
      WritevUsage(usage, offset + total) <= capacity
  {
  }

  /** The corrected usage never passes the capacity a write respects. */
  lemma WritevUsageBounded(usage: nat, offset: nat, total: nat, capacity: nat)
    requires offset <= usage <= capacity && offset + total <= capacity
    ensures offset + total <= WritevUsage(usage, offset + total) <= capacity
  {
  }

  /** `QIOChannelBufferWriteback`. */
  class Channel {
    var capacity: nat
    var usage: nat
    var offset: nat
    var data: seq<u8>
    var internalAllocation: bool
    const writeback: HostBuffer
    const writebackCapacity: nat

    /**
     * The buffer holds `capacity` bytes and the cursor is within the used
     * part. The used part itself may run past the buffer: the write counts
     * overwritten bytes again.
     */
    ghost predicate Valid()
      reads this, writeback
    {
      |data| == capacity && offset <= usage && writebackCapacity <= |writeback.bytes|
    }

    /**
     * `qio_channel_buffer_writeback_new`: a zeroed buffer of `capacity`
     * bytes of its own; with capacity 0 no buffer is allocated.
     */
    constructor New(capacity: nat, writeback: HostBuffer, writebackCapacity: nat)
      requires writebackCapacity <= |writeback.bytes|
      ensures Valid()
      ensures this.capacity == capacity && data == seq(capacity, _ => 0) && usage == 0 && offset == 0
      ensures internalAllocation <==> capacity > 0
      ensures this.writeback == writeback && this.writebackCapacity == writebackCapacity
    {
      this.capacity := capacity;
      data := seq(capacity, _ => 0);
      internalAllocation := capacity > 0;
      usage := 0;
      offset := 0;
      this.writeback := writeback;
      this.writebackCapacity := writebackCapacity;
    }

    /**
     * `qio_channel_buffer_writeback_new_external`: the caller's buffer with
     * `usage` bytes already used; the channel does not own it.
     */
    constructor External(buf: seq<u8>, usage: nat, writeback: HostBuffer, writebackCapacity: nat)
      requires usage <= |buf|
      requires writebackCapacity <= |writeback.bytes|
      ensures Valid()
      ensures capacity == |buf| && data == buf && this.usage == usage && offset == 0 && !internalAllocation
      ensures this.writeback == writeback && this.writebackCapacity == writebackCapacity
    {
      capacity := |buf|;
      data := buf;
      this.usage := usage;
      offset := 0;
      internalAllocation := false;
      this.writeback := writeback;
      this.writebackCapacity := writebackCapacity;
    }

    /**
     * `qio_channel_buffer_writeback_readv`: fill the vectors from the
     * cursor, stopping at `usage`; the cursor advances by what was read.
     */
    method Readv(lens: seq<nat>) returns (ret: nat, chunks: seq<seq<u8>>)
      requires Valid() && usage <= capacity
      modifies this
      ensures Valid()
      ensures data == old(data) && usage == old(usage) && capacity == old(capacity)
      ensures chunks == ReadChunks(data, usage, old(offset), lens)
      ensures ret == |Flatten(chunks)| && offset == old(offset) + ret
      ensures internalAllocation == old(internalAllocation)
    {
      var pos;
      ret, chunks, pos := ReadLoop(data, usage, offset, lens);
      offset := pos;
    }

    /**
     * The copy loop shared by both writes: copy the vectors at the cursor
     * and advance it past them; the used part is left alone.
     */
    method CopyVectors(iovs: seq<seq<u8>>) returns (ret: nat)
      requires Valid()
      requires offset + |Flatten(iovs)| <= capacity
      modifies this
      ensures |data| == capacity && ret == |Flatten(iovs)| && offset == old(offset) + ret
      ensures data == Splice(old(data), old(offset), Flatten(iovs))
      ensures usage == old(usage) && capacity == old(capacity) && internalAllocation == old(internalAllocation)
    {
      var towrite := 0;
      var i := 0;
      while i < |iovs|
        invariant i <= |iovs|
        invariant towrite + |Flatten(iovs[i..])| == |Flatten(iovs)|
      {
        assert iovs[i..][1..] == iovs[i + 1..];
        towrite := towrite + |iovs[i]|;
        i := i + 1;
      }
      ret := 0;
      i := 0;
      while i < |iovs|
        invariant i <= |iovs| && |data| == capacity && capacity == old(capacity)
        invariant usage == old(usage) && internalAllocation == old(internalAllocation)
        invariant offset == old(offset) + ret && offset + |Flatten(iovs[i..])| <= capacity
        invariant ret + |Flatten(iovs[i..])| == towrite
        invariant WriteAll(data, offset, iovs[i..]) == WriteAll(old(data), old(offset), iovs)
      {
        assert iovs[i..][1..] == iovs[i + 1..];
        data := Splice(data, offset, iovs[i]);
        offset := offset + |iovs[i]|;
        ret := ret + |iovs[i]|;
        i := i + 1;
      }
      WriteAllSplices(old(data), old(offset), iovs);
    }

    /**
     * `qio_channel_buffer_writeback_writev`: copy the vectors at the
     * cursor and advance it past them. Every byte written is added to the
     * used part, also where it overwrites bytes already used, so after a
     * seek back `usage` can pass `capacity` (`WritevOverrunsCapacity`).
     */
    method Writev(iovs: seq<seq<u8>>) returns (ret: nat)
      requires Valid()
      requires offset + |Flatten(iovs)| <= capacity
      modifies this
      ensures Valid()
      ensures ret == |Flatten(iovs)| && offset == old(offset) + ret
      ensures data == Splice(old(data), old(offset), Flatten(iovs))
      ensures usage == WritevUsageAsWritten(old(usage), ret)
      ensures capacity == old(capacity) && internalAllocation == old(internalAllocation)
    {
      ret := CopyVectors(iovs);
      usage := usage + ret;
    }

    /**
     * The write as evidently intended: the used part grows to the cursor
     * only when the write runs past it, so it stays within the capacity.
     */
    method WritevCorrected(iovs: seq<seq<u8>>) returns (ret: nat)
      requires Valid()
      requires offset + |Flatten(iovs)| <= capacity
      modifies this
      ensures Valid()
      ensures ret == |Flatten(iovs)| && offset == old(offset) + ret
      ensures data == Splice(old(data), old(offset), Flatten(iovs))
      ensures usage == WritevUsage(old(usage), offset)
      ensures old(usage) <= capacity ==> usage <= capacity
      ensures capacity == old(capacity) && internalAllocation == old(internalAllocation)
    {
      ret := CopyVectors(iovs);
      usage := WritevUsage(usage, offset);
      if old(usage) <= capacity {
        WritevUsageBounded(old(usage), old(offset), ret, capacity);
      }
    }

    /** `qio_channel_buffer_writeback_seek`: move the cursor to a position within the used part. */
    method Seek(off: int, whence: Whence) returns (pos: int)
      requires Valid()
      requires 0 <= SeekTarget(off, whence, offset, usage) <= usage
      modifies this
      ensures Valid()
      ensures pos == SeekTarget(off, whence, old(offset), old(usage)) && offset == pos
      ensures data == old(data) && usage == old(usage) && capacity == old(capacity)
      ensures internalAllocation == old(internalAllocation)
    {
      pos := SeekTarget(off, whence, offset, usage);
      offset := pos;
    }

    /**
     * `qio_channel_buffer_writeback_finalize`: copy the used bytes into the
     * writeback buffer and publish their count; a buffer the channel owns
     * is then released.
     */
    method Finalize()
      requires Valid() && usage <= capacity
      requires writebackCapacity >= usage
      modifies this, writeback
      ensures Valid()
      ensures writeback.bytes == Splice(old(writeback.bytes), 0, old(data[..usage]))
      ensures writeback.usage == old(usage)
      ensures old(internalAllocation) ==> data == [] && capacity == 0 && usage == 0 && offset == 0
      ensures !old(internalAllocation) ==>
        data == old(data) && capacity == old(capacity) && usage == old(usage) && offset == old(offset)
      ensures internalAllocation == old(internalAllocation)
    {
      writeback.bytes := Splice(writeback.bytes, 0, data[..usage]);
      writeback.usage := usage;
      if internalAllocation {
        data := [];
        capacity := 0;
        usage := 0;
        offset := 0;
      }
    }

    /** `qio_channel_buffer_writeback_close`: the same write-back and release, returning 0. */
    method Close() returns (r: int)
      requires Valid() && usage <= capacity
      requires writebackCapacity >= usage
      modifies this, writeback
      ensures Valid() && r == 0
      ensures writeback.bytes == Splice(old(writeback.bytes), 0, old(data[..usage]))
      ensures writeback.usage == old(usage)
      ensures old(internalAllocation) ==> data == [] && capacity == 0 && usage == 0 && offset == 0
      ensures !old(internalAllocation) ==>
        data == old(data) && capacity == old(capacity) && usage == old(usage) && offset == old(offset)
    {
      Finalize();
      r := 0;
    }

    /** `qio_channel_buffer_writeback_set_blocking`: accepted and ignored. */
    method SetBlocking(enabled: bool) returns (r: int)
      ensures r == 0
    {
      r := 0;
    }
  }

  /**
   * The loop of the read: each vector takes at most its length from
   * `buf[pos..used)`, and the loop stops once the cursor reaches `used`.
   */
  method ReadLoop(buf: seq<u8>, used: nat, pos0: nat, lens: seq<nat>) returns (ret: nat, chunks: seq<seq<u8>>, pos: nat)
    requires pos0 <= used <= |buf|
    ensures chunks == ReadChunks(buf, used, pos0, lens)
    ensures ret == |Flatten(chunks)| && pos == pos0 + ret <= used
  {
    ret := 0;
    chunks := [];
    pos := pos0;
    var i := 0;
    while i < |lens|
      invariant i <= |lens| && pos0 <= pos <= used
      invariant ret == pos - pos0 && ret == |Flatten(chunks)|
      invariant chunks + ReadChunks(buf, used, pos, lens[i..]) == ReadChunks(buf, used, pos0, lens)
    {
      if pos >= used {
        ReadChunksEnd(buf, used, pos, lens, i);
        break;
      }
      var want := lens[i];
      if pos + want > used {
        want := used - pos;
      }
      ReadStep(buf, used, pos0, lens, chunks, pos, i);
      chunks := chunks + [buf[pos..pos + want]];
      ret := ret + want;
      pos := pos + want;
      i := i + 1;
    }
    if i == |lens| {
      ReadChunksEnd(buf, used, pos, lens, i);
    }
    assert chunks == ReadChunks(buf, used, pos0, lens);
  }

  /** Nothing is read once the vectors run out or the cursor reaches the end. */
  lemma ReadChunksEnd(buf: seq<u8>, used: nat, pos: nat, lens: seq<nat>, i: nat)
    requires used <= |buf| && i <= |lens| && (i == |lens| || pos >= used)
    ensures ReadChunks(buf, used, pos, lens[i..]) == []
  {
  }

  /** One vector of the read keeps the loop's account of what has been read. */
  lemma ReadStep(buf: seq<u8>, used: nat, pos0: nat, lens: seq<nat>, chunks: seq<seq<u8>>, pos: nat, i: nat)
    requires pos < used <= |buf| && i < |lens|
    requires chunks + ReadChunks(buf, used, pos, lens[i..]) == ReadChunks(buf, used, pos0, lens)
    ensures var c := buf[pos..pos + Min(lens[i], used - pos)];
      (chunks + [c]) + ReadChunks(buf, used, pos + |c|, lens[i + 1..]) == ReadChunks(buf, used, pos0, lens) &&
      Flatten(chunks + [c]) == Flatten(chunks) + c
  {
    var want := Min(lens[i], used - pos);
    var c := buf[pos..pos + want];
    ReadChunksStep(buf, used, pos, lens, i);
    FlattenAppend(chunks, c);
    assert chunks + ([c] + ReadChunks(buf, used, pos + want, lens[i + 1..])) ==
           (chunks + [c]) + ReadChunks(buf, used, pos + want, lens[i + 1..]);
  }

  /** The first vector of `lens[i..]` takes `min(lens[i], used - pos)` bytes. */
  lemma ReadChunksStep(buf: seq<u8>, used: nat, pos: nat, lens: seq<nat>, i: nat)
    requires pos < used <= |buf| && i < |lens|
    ensures var want := Min(lens[i], used - pos);
      ReadChunks(buf, used, pos, lens[i..]) == [buf[pos..pos + want]] + ReadChunks(buf, used, pos + want, lens[i + 1..])
  {
    assert lens[i..][1..] == lens[i + 1..];
  }

  lemma {:induction false} FlattenAppend(chunks: seq<seq<u8>>, c: seq<u8>)
    ensures Flatten(chunks + [c]) == Flatten(chunks) + c
    decreases |chunks|
  {
    if chunks != [] {
      FlattenAppend(chunks[1..], c);
      assert (chunks + [c])[1..] == chunks[1..] + [c];
    }
  }
}
