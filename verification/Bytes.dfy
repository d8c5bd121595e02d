/** Bytes, files as byte sequences, and what a positioned write leaves behind. */
module Bytes {

  type byte = x: int | 0 <= x < 256

  const U32_SIZE: int := 0x1_0000_0000
  const U64_SIZE: int := 0x1_0000_0000_0000_0000
  const I32_SIZE: int := 0x8000_0000

  datatype Option<+T> = None | Some(value: T)

  function Max(a: int, b: int): int {
    if a < b then b else a
  }

  /** `x as u32` and a wrapping 64-bit sum, as the compiled code performs them. */
  function U32(x: nat): nat {
    x % U32_SIZE
  }

  function U64(x: nat): nat {
    x % U64_SIZE
  }

  /** A file after one byte landed at `at`: a gap past the old end reads as zeros. */
  function PutByte(file: seq<byte>, at: nat, b: byte): seq<byte> {
    if at < |file| then file[at := b] else file + seq(at - |file|, _ => 0) + [b]
  }

  /** The first `n` bytes of a file, with zeros where the file is too short. */
  function Head(file: seq<byte>, n: nat): seq<byte> {
    if n <= |file| then file[..n] else file + seq(n - |file|, _ => 0)
  }

  /** What a file holds from `n` on. */
  function Tail(file: seq<byte>, n: nat): seq<byte> {
    if n <= |file| then file[n..] else []
  }

  /** A file after all of `data` was written at `off`. Writing nothing changes nothing. */
  function Overlay(file: seq<byte>, off: nat, data: seq<byte>): seq<byte> {
    if data == [] then file else Head(file, off) + data + Tail(file, off + |data|)
  }

  /** What an overlay holds, byte by byte: the data in its range, the old bytes elsewhere, zeros in a gap. */
  lemma OverlayMeans(file: seq<byte>, off: nat, data: seq<byte>)
    ensures |Overlay(file, off, data)| == if data == [] then |file| else Max(|file|, off + |data|)
    ensures forall i :: 0 <= i < |Overlay(file, off, data)| ==>
              Overlay(file, off, data)[i] ==
                if off <= i < off + |data| then data[i - off] else if i < |file| then file[i] else 0
  {
  }

  /** Reading back the written range gives the written bytes. */
  lemma OverlayReadsBack(file: seq<byte>, off: nat, data: seq<byte>)
    requires data != []
    ensures off + |data| <= |Overlay(file, off, data)|
    ensures Overlay(file, off, data)[off..off + |data|] == data
  {
  }

  /** Two adjacent writes are one write of the concatenation: cutting a buffer into chunks loses nothing. */
  lemma OverlayOfChunks(file: seq<byte>, off: nat, a: seq<byte>, b: seq<byte>)
    ensures Overlay(Overlay(file, off, a), off + |a|, b) == Overlay(file, off, a + b)
  {
    if a == [] {
      assert a + b == b;
    } else if b == [] {
      assert a + b == a;
    } else {
      var first := Overlay(file, off, a);
      assert Head(first, off + |a|) == Head(file, off) + a;
      assert Tail(first, off + |a| + |b|) == Tail(file, off + |a| + |b|);
      assert Head(file, off) + a + b == Head(file, off) + (a + b);
    }
  }
}
