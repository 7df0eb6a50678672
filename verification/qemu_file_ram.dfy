// The RAM-backed QEMUFile of libafl_extras/syx-snapshot/qemu-file-ram.c: a
// writer appends into a private 32 MiB buffer and copies it out on close; a
// reader serves requested ranges of the caller's buffer.
module QemuFileRam {
  import opened Common
  import opened Iov

  /** QEMU_FILE_RAM_LIMIT: the size of the private buffer of a writer. */
  const QEMU_FILE_RAM_LIMIT: nat := 32 * 1024 * 1024

  /** The caller's output buffer of a writer. */
  class OutputBuffer {
    var bytes: seq<u8>

    constructor (size: nat)
      ensures |bytes| == size
    {
      bytes := seq(size, _ => 0);
    }
  }

  /** `QEMUFileRAM_opaque_t`. */
  class RamFile {
    var pos: nat
    var buf: seq<u8>
    var bufLen: nat
    const output: OutputBuffer
    var outputBufLen: nat

    /** `buf_len` is the size of `buf` and bounds `pos`; the output length never claims more than the output has. */
    ghost predicate Valid()
      reads this, output
    {
      |buf| == bufLen && pos <= bufLen && outputBufLen <= |output.bytes|
    }

    /** `qemu_file_ram_write_new`: a zeroed private buffer of QEMU_FILE_RAM_LIMIT bytes, position 0. */
    constructor WriteNew(output: OutputBuffer, outputBufLen: nat)
      requires outputBufLen <= |output.bytes|
      ensures Valid()
      ensures pos == 0 && bufLen == QEMU_FILE_RAM_LIMIT && buf == seq(QEMU_FILE_RAM_LIMIT, _ => 0)
      ensures this.output == output && this.outputBufLen == outputBufLen
    {
      pos := 0;
      buf := seq(QEMU_FILE_RAM_LIMIT, _ => 0);
      bufLen := QEMU_FILE_RAM_LIMIT;
      this.output := output;
      this.outputBufLen := outputBufLen;
    }

    /**
     * `qemu_file_ram_read_new`: the caller's buffer, position 0. A reader
     * has no output buffer; `output` is an empty one and its length 0.
     */
    constructor ReadNew(input: seq<u8>, empty: OutputBuffer)
      ensures Valid()
      ensures pos == 0 && buf == input && bufLen == |input| && outputBufLen == 0 && output == empty
    {
      pos := 0;
      buf := input;
      bufLen := |input|;
      output := empty;
      outputBufLen := 0;
    }

    /**
     * `qemu_file_ram_writev`: append the vectors at `pos`, each of which
     * must fit in the buffer, and return how many bytes were written.
     */
    method Writev(iovs: seq<seq<u8>>) returns (total: nat)
      requires Valid()
      requires pos + |Flatten(iovs)| <= bufLen
      modifies this
      ensures Valid()
      ensures total == |Flatten(iovs)| && pos == old(pos) + total
      ensures buf == WriteAll(old(buf), old(pos), iovs)
      ensures buf == Splice(old(buf), old(pos), Flatten(iovs))
      ensures bufLen == old(bufLen) && outputBufLen == old(outputBufLen)
    {
      total := 0;
      var i := 0;
      while i < |iovs|
        invariant i <= |iovs| && |buf| == bufLen && bufLen == old(bufLen) && outputBufLen == old(outputBufLen)
        invariant pos == old(pos) + total && pos + |Flatten(iovs[i..])| <= bufLen
        invariant total + |Flatten(iovs[i..])| == |Flatten(iovs)|
        invariant WriteAll(buf, pos, iovs[i..]) == WriteAll(old(buf), old(pos), iovs)
      {
        assert iovs[i..][1..] == iovs[i + 1..];
        buf := Splice(buf, pos, iovs[i]);
        pos := pos + |iovs[i]|;
        total := total + |iovs[i]|;
        i := i + 1;
      }
      WriteAllSplices(old(buf), old(pos), iovs);
    }

    /**
     * `qemu_file_ram_get_buffer`: the `size` bytes at the position the
     * caller passes (not the file's own `pos`). The code checks no bounds;
     * the range must lie in the buffer.
     */
    method GetBuffer(at: nat, size: nat) returns (bytes: seq<u8>, n: nat)
      requires Valid()
      requires at + size <= |buf|
      ensures |bytes| == n == size
      ensures forall k :: 0 <= k < size ==> bytes[k] == buf[at + k]
    {
      bytes := buf[at..at + size];
      n := size;
    }

    /**
     * `qemu_file_ram_close_and_save`: copy the written bytes to the front of
     * the output buffer and record their count as its length.
     */
    method CloseAndSave() returns (r: int)
      requires Valid()
      requires outputBufLen >= pos
      modifies this, output
      ensures Valid() && r == 0
      ensures outputBufLen == old(pos)
      ensures output.bytes == Splice(old(output.bytes), 0, old(buf)[..old(pos)])
      ensures buf == old(buf) && pos == old(pos) && bufLen == old(bufLen)
    {
      output.bytes := Splice(output.bytes, 0, buf[..pos]);
      outputBufLen := pos;
      r := 0;
    }

    /** `qemu_file_ram_close`: a reader closes without doing anything. */
    method Close() returns (r: int)
      ensures r == 0
    {
      r := 0;
    }
  }
}
