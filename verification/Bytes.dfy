/** Machine integers, byte strings and the few generic datatypes the model shares. */
module Bytes {

  const TWO_32: int := 0x1_0000_0000
  const TWO_64: int := 0x1_0000_0000_0000_0000

  type byte = x: int | 0 <= x < 256
  type u32 = x: int | 0 <= x < TWO_32
  type u64 = x: int | 0 <= x < TWO_64
  type bytes = seq<byte>

  /** A SHA-256 digest, and SHA-256 itself as an arbitrary function: nothing is assumed of it. */
  type Digest = d: bytes | |d| == 32 witness seq(32, _ => 0)
  type Sha256 = bytes -> Digest

  datatype Option<+T> = None | Some(value: T)

  /** The bytes of an ASCII literal. */
  function Ascii(s: string): (b: bytes)
    ensures |b| == |s|
  {
    seq(|s|, i requires 0 <= i < |s| => s[i] as int % 256)
  }

  function Min(a: int, b: int): int { if a <= b then a else b }

  /** No two of the given contents share a digest. */
  ghost predicate NoCollision(sha: Sha256, contents: set<bytes>) {
    forall x, y :: x in contents && y in contents && sha(x) == sha(y) ==> x == y
  }
}
