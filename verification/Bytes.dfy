/** Bytes, and the byte strings that stand for buffers and files. */
module Bytes {

  type byte = x: int | 0 <= x < 256

  function Min(a: nat, b: nat): (m: nat)
    ensures m <= a && m <= b && (m == a || m == b)
  {
    if a < b then a else b
  }

  function Zeros(n: nat): (r: seq<byte>)
    ensures |r| == n && forall i :: 0 <= i < n ==> r[i] == 0
  {
    seq(n, _ => 0)
  }

  /** pwrite(2) at an offset not past the end: replaces bytes, and extends the file when it has to. */
  function Overlay(file: seq<byte>, off: nat, data: seq<byte>): (r: seq<byte>)
    requires off <= |file|
    ensures |r| == if off + |data| <= |file| then |file| else off + |data|
    ensures r[..off] == file[..off]
    ensures r[off..off + |data|] == data
    ensures off + |data| <= |file| ==> r[off + |data|..] == file[off + |data|..]
  {
    file[..off] + data + (if off + |data| <= |file| then file[off + |data|..] else [])
  }

  /** ftruncate(2): cuts the file, or extends it with zeros. */
  function Resize(file: seq<byte>, size: nat): (r: seq<byte>)
    ensures |r| == size && forall i :: 0 <= i < size ==> r[i] == if i < |file| then file[i] else 0
  {
    if size <= |file| then file[..size] else file + Zeros(size - |file|)
  }
}
