/**
 * The upload progress counter of main.go:18-30: an `io.Writer` that only counts the
 * bytes written to it, used as the tee sink while a part is copied to disk.
 */
module ProgressCounter {
  import opened Common

  const Int64Modulus: int := 0x1_0000_0000_0000_0000
  const Int64Half: int := 0x8000_0000_0000_0000

  /** Go's two's-complement wrap-around of an int64 addition. */
  function Wrap(x: int): (r: int64)
    ensures (r as int - x) % Int64Modulus == 0
  {
    ((x + Int64Half) % Int64Modulus - Int64Half) as int64
  }

  /** Results that differ by a multiple of 2^64 wrap to the same int64. */
  lemma WrapCongruent(x: int, y: int)
    requires (x - y) % Int64Modulus == 0
    ensures Wrap(x) == Wrap(y)
  {
    var k := (x - y) / Int64Modulus;
    assert x == y + k * Int64Modulus;
    assert (x + Int64Half) % Int64Modulus == (y + Int64Half) % Int64Modulus;
  }

  /** Adding in two steps, with a wrap after the first, is adding once. */
  lemma WrapAdd(a: int, b: int)
    ensures Wrap(Wrap(a) as int + b) == Wrap(a + b)
  {
    WrapCongruent(Wrap(a) as int + b, a + b);
  }

  /** No wrap-around happens while the sum stays in range. */
  lemma WrapInRange(x: int)
    requires -Int64Half <= x < Int64Half
    ensures Wrap(x) as int == x
  {
  }

  class Progress {
    var TotalSize: int64
    var BytesRead: int64

    /** `&Progress{TotalSize: size}`: the counter starts at zero. */
    constructor (totalSize: int64)
      ensures TotalSize == totalSize && BytesRead == 0
    {
      TotalSize := totalSize;
      BytesRead := 0;
    }

    /**
     * Accepts every chunk whole and never fails; `BytesRead` grows by the chunk's length
     * with int64 wrap-around, and `TotalSize` is not touched.
     */
    method Write(p: seq<byte>) returns (n: int, err: Option<string>)
      modifies this
      ensures n == |p| && err == None
      ensures BytesRead == Wrap(old(BytesRead) as int + |p|)
      ensures TotalSize == old(TotalSize)
    {
      n := |p|;
      BytesRead := Wrap(BytesRead as int + n);
      err := None;
    }
  }

  /** io.Copy's default buffer size: the largest chunk one Write receives. */
  const CopyBufferSize: nat := 32 * 1024

  /**
   * `io.Copy(f, io.TeeReader(file, pr))` when every read and write succeeds: the
   * destination receives the source byte for byte, and every chunk is also written to
   * `pr`, so its count grows by the number of bytes copied.
   */
  method CopyThrough(pr: Progress, src: seq<byte>) returns (dst: seq<byte>)
    modifies pr
    ensures dst == src
    ensures pr.BytesRead == Wrap(old(pr.BytesRead) as int + |src|)
    ensures old(pr.BytesRead) == 0 && |src| < Int64Half ==> pr.BytesRead as int == |src|
    ensures pr.TotalSize == old(pr.TotalSize)
  {
    dst := [];
    ghost var start := pr.BytesRead as int;
    WrapInRange(start);
    while |dst| < |src|
      invariant |dst| <= |src| && dst == src[..|dst|]
      invariant pr.BytesRead == Wrap(start + |dst|)
      invariant pr.TotalSize == old(pr.TotalSize)
      decreases |src| - |dst|
    {
      var end := Min(|dst| + CopyBufferSize, |src|);
      var chunk := src[|dst|..end];
      var _, _ := pr.Write(chunk);
      WrapAdd(start + |dst|, |chunk|);
      dst := dst + chunk;
    }
    if start == 0 && |src| < Int64Half {
      WrapInRange(|src|);
    }
  }
}
