// Scatter/gather vectors (`struct iovec` arrays) as the two in-memory
// migration channels use them: a write copies the vectors one after the
// other into a byte buffer at a position, a read fills vectors from a byte
// buffer up to a limit.
module Iov {
  import opened Common

  /** The bytes of a vector array, one vector after the other. */
  function Flatten(iovs: seq<seq<u8>>): (bytes: seq<u8>)
    ensures iovs == [] ==> bytes == []
  {
    if iovs == [] then [] else iovs[0] + Flatten(iovs[1..])
  }

  /** The `iov_len` fields of a vector array. */
  function Lengths(iovs: seq<seq<u8>>): (lens: seq<nat>)
    ensures |lens| == |iovs| && forall k :: 0 <= k < |iovs| ==> lens[k] == |iovs[k]|
  {
    seq(|iovs|, k requires 0 <= k < |iovs| => |iovs[k]|)
  }

  /** The sum of some lengths. */
  function Sum(lens: seq<nat>): nat
  {
    if lens == [] then 0 else lens[0] + Sum(lens[1..])
  }

  function Min(a: int, b: int): (m: int)
    ensures m <= a && m <= b && (m == a || m == b)
  {
    if a <= b then a else b
  }

  /** The total length of a vector array is the sum of its `iov_len` fields. */
  lemma {:induction false} FlattenLength(iovs: seq<seq<u8>>)
    ensures |Flatten(iovs)| == Sum(Lengths(iovs))
  {
    if iovs != [] {
      FlattenLength(iovs[1..]);
      assert Lengths(iovs)[1..] == Lengths(iovs[1..]);
    }
  }

  /** A `memcpy(buf + pos, src, |src|)` into a buffer that has room for it. */
  function Splice(buf: seq<u8>, pos: nat, src: seq<u8>): (r: seq<u8>)
    requires pos + |src| <= |buf|
    ensures |r| == |buf|
    ensures r[..pos] == buf[..pos] && r[pos..pos + |src|] == src && r[pos + |src|..] == buf[pos + |src|..]
  {
    buf[..pos] + src + buf[pos + |src|..]
  }

  /** The vectors copied one after the other from `pos` on, as the write loops do it. */
  function WriteAll(buf: seq<u8>, pos: nat, iovs: seq<seq<u8>>): (r: seq<u8>)
    requires pos + |Flatten(iovs)| <= |buf|
    ensures |r| == |buf|
    decreases |iovs|
  {
    if iovs == [] then buf
    else WriteAll(Splice(buf, pos, iovs[0]), pos + |iovs[0]|, iovs[1..])
  }

  /**
   * Copying the vectors one by one is copying their concatenation: the
   * bytes before `pos` and after the written range are untouched.
   */
  lemma {:induction false} WriteAllSplices(buf: seq<u8>, pos: nat, iovs: seq<seq<u8>>)
    requires pos + |Flatten(iovs)| <= |buf|
    ensures WriteAll(buf, pos, iovs) == Splice(buf, pos, Flatten(iovs))
    decreases |iovs|
  {
    if iovs != [] {
      var b1 := Splice(buf, pos, iovs[0]);
      WriteAllSplices(b1, pos + |iovs[0]|, iovs[1..]);
      assert Flatten(iovs) == iovs[0] + Flatten(iovs[1..]);
      SpliceTwice(buf, pos, iovs[0], Flatten(iovs[1..]));
    }
  }

  /** Two adjacent copies are one copy of their concatenation. */
  lemma SpliceTwice(buf: seq<u8>, pos: nat, a: seq<u8>, b: seq<u8>)
    requires pos + |a| + |b| <= |buf|
    ensures Splice(Splice(buf, pos, a), pos + |a|, b) == Splice(buf, pos, a + b)
  {
    var b1 := Splice(buf, pos, a);
    var r := Splice(b1, pos + |a|, b);
    assert r[..pos] == buf[..pos] by {
      assert r[..pos] == b1[..pos + |a|][..pos];
    }
    assert r[pos..pos + |a| + |b|] == a + b by {
      assert r[pos..pos + |a|] == b1[pos..pos + |a|];
      assert r[pos..pos + |a| + |b|] == r[pos..pos + |a|] + r[pos + |a|..pos + |a| + |b|];
    }
    assert r == r[..pos] + r[pos..pos + |a| + |b|] + r[pos + |a| + |b|..];
  }

  /**
   * The vectors a read fills from `buf[pos..limit)`: each takes at most its
   * length, and the read stops once `pos` reaches `limit`.
   */
  function ReadChunks(buf: seq<u8>, limit: nat, pos: nat, lens: seq<nat>): (chunks: seq<seq<u8>>)
    requires limit <= |buf|
    ensures |chunks| <= |lens|
    decreases |lens|
  {
    if lens == [] || pos >= limit then []
    else
      var want := Min(lens[0], limit - pos);
      [buf[pos..pos + want]] + ReadChunks(buf, limit, pos + want, lens[1..])
  }

  /**
   * A read returns the bytes from `pos` on, `min(sum of lengths, limit - pos)`
   * of them, in order.
   */
  lemma {:induction false} ReadChunksContents(buf: seq<u8>, limit: nat, pos: nat, lens: seq<nat>)
    requires pos <= limit <= |buf|
    ensures |Flatten(ReadChunks(buf, limit, pos, lens))| == Min(Sum(lens), limit - pos)
    ensures Flatten(ReadChunks(buf, limit, pos, lens)) == buf[pos..pos + Min(Sum(lens), limit - pos)]
    decreases |lens|
  {
    if lens != [] && pos < limit {
      var want := Min(lens[0], limit - pos);
      ReadChunksContents(buf, limit, pos + want, lens[1..]);
      var rest := Min(Sum(lens[1..]), limit - pos - want);
      var head := buf[pos..pos + want];
      var tail := ReadChunks(buf, limit, pos + want, lens[1..]);
      assert ([head] + tail)[1..] == tail;
      assert Flatten(ReadChunks(buf, limit, pos, lens)) == head + buf[pos + want..pos + want + rest];
      assert want + rest == Min(Sum(lens), limit - pos);
      assert head + buf[pos + want..pos + want + rest] == buf[pos..pos + want + rest];
    }
  }

  /**
   * Reading back with the same vector lengths from where a write started
   * returns the written bytes, provided the limit lies past them.
   */
  lemma ReadBackWritten(buf: seq<u8>, pos: nat, iovs: seq<seq<u8>>, limit: nat)
    requires pos + |Flatten(iovs)| <= limit <= |buf|
    ensures Flatten(ReadChunks(WriteAll(buf, pos, iovs), limit, pos, Lengths(iovs))) == Flatten(iovs)
  {
    WriteAllSplices(buf, pos, iovs);
    FlattenLength(iovs);
    ReadChunksContents(WriteAll(buf, pos, iovs), limit, pos, Lengths(iovs));
  }
}
