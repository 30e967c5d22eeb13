/** The blob format: little-endian uint64 values, one after another. */
module LittleEndian {
  import opened Bytes

  /** v >> (8 * i). */
  function ShiftRight8(v: nat, i: nat): (r: nat) {
    if i == 0 then v else ShiftRight8(v, i - 1) / 256
  }

  /** The n low bytes of v, least significant first. */
  function LeBytes(v: nat, n: nat): (b: bytes)
    ensures |b| == n
  {
    if n == 0 then [] else [v % 256] + LeBytes(v / 256, n - 1)
  }

  /** The value a little-endian byte string stands for. */
  function LeValue(b: bytes): nat {
    if b == [] then 0 else b[0] + 256 * LeValue(b[1..])
  }

  function Pow256(n: nat): (p: nat)
    ensures p > 0
  {
    if n == 0 then 1 else 256 * Pow256(n - 1)
  }

  lemma {:induction false} ValueOfBytes(v: nat, n: nat)
    requires v < Pow256(n)
    ensures LeValue(LeBytes(v, n)) == v
  {
    if n > 0 {
      ValueOfBytes(v / 256, n - 1);
      assert LeBytes(v, n)[1..] == LeBytes(v / 256, n - 1);
    }
  }

  lemma {:induction false} BytesOfValue(b: bytes)
    ensures LeValue(b) < Pow256(|b|) && LeBytes(LeValue(b), |b|) == b
  {
    if b != [] {
      BytesOfValue(b[1..]);
      var v := LeValue(b);
      assert v % 256 == b[0] && v / 256 == LeValue(b[1..]);
      assert b == [b[0]] + b[1..];
    }
  }

  lemma Pow256Of8()
    ensures Pow256(8) == TWO_64
  {
    assert Pow256(4) == 0x1_0000_0000;
  }

  function Decode(b: bytes): (v: u64)
    requires |b| == 8
  {
    BytesOfValue(b);
    Pow256Of8();
    LeValue(b)
  }

  /** The value of an entry, the least significant byte first. */
  lemma DecodeIsLittleEndian(b: bytes)
    requires |b| == 8
    ensures Decode(b) == (b[0] as int) + 0x100 * (b[1] as int) + 0x1_0000 * (b[2] as int) + 0x100_0000 * (b[3] as int)
                         + 0x1_0000_0000 * (b[4] as int) + 0x100_0000_0000 * (b[5] as int)
                         + 0x1_0000_0000_0000 * (b[6] as int) + 0x100_0000_0000_0000 * (b[7] as int)
  {
    ValueOfFour(b);
    ValueOfFour(b[4..]);
    assert b[4..][4..] == [] && LeValue([]) == 0;
  }

  lemma ValueOfFour(b: bytes)
    requires |b| >= 4
    ensures LeValue(b) == (b[0] as int) + 0x100 * (b[1] as int) + 0x1_0000 * (b[2] as int) + 0x100_0000 * (b[3] as int)
                          + 0x1_0000_0000 * LeValue(b[4..])
  {
    assert b[1..][1..] == b[2..] && b[2..][1..] == b[3..] && b[3..][1..] == b[4..];
    assert LeValue(b[1..]) == b[1] + 256 * LeValue(b[2..]);
    assert LeValue(b[2..]) == b[2] + 256 * LeValue(b[3..]);
    assert LeValue(b[3..]) == b[3] + 256 * LeValue(b[4..]);
  }

  method DecodeU64(b: bytes, at: nat) returns (v: u64)
    requires at + 8 <= |b|
    ensures v == Decode(b[at..at + 8])
  {
    var p := b[at..at + 8];
    v := 0;
    var i := 8;
    while i > 0
      invariant 0 <= i <= 8
      invariant v == LeValue(p[i..])
      invariant v < Pow256(8 - i)
    {
      i := i - 1;
      assert p[i..][1..] == p[i + 1..];
      BytesOfValue(p[i..]);
      Pow256Of8();
      PowMonotone(8 - i, 8);
      v := v * 256 + p[i];
    }
    assert p[0..] == p;
  }

  lemma {:induction false} PowMonotone(m: nat, n: nat)
    requires m <= n
    ensures Pow256(m) <= Pow256(n)
    decreases n
  {
    if m < n { PowMonotone(m, n - 1); }
  }

  method EncodeU64(p: array<byte>, at: nat, v: u64)
    requires at + 8 <= p.Length
    modifies p
    ensures p[..] == old(p[..at]) + LeBytes(v, 8) + old(p[at + 8..])
  {
    ghost var code := LeBytes(v, 8);
    var i := 0;
    while i < 8
      invariant 0 <= i <= 8
      invariant p[..at] == old(p[..at])
      invariant p[at..at + i] + LeBytes(ShiftRight8(v, i), 8 - i) == code
      invariant p[at + 8..] == old(p[at + 8..])
    {
      ghost var before := p[at..at + i];
      p[at + i] := ShiftRight8(v, i) % 256;
      assert p[at..at + i + 1] == before + [ShiftRight8(v, i) % 256];
      i := i + 1;
    }
    assert p[..] == p[..at] + p[at..at + 8] + p[at + 8..];
  }

  /** A list of hashes as a blob. */
  function EncodeList(hs: seq<u64>): (b: bytes)
    ensures |b| == 8 * |hs|
  {
    if hs == [] then [] else EncodeList(hs[..|hs| - 1]) + LeBytes(hs[|hs| - 1], 8)
  }

  lemma EncodeSnoc(hs: seq<u64>, h: u64)
    ensures EncodeList(hs + [h]) == EncodeList(hs) + LeBytes(h, 8)
  {
    assert (hs + [h])[..|hs|] == hs;
  }

  /** The first n entries of a blob: what the sinkhole's `uint64_t *` view of it reads. */
  function DecodeList(b: bytes, n: nat): (hs: seq<u64>)
    requires 8 * n <= |b|
    ensures |hs| == n
  {
    seq(n, i requires 0 <= i < n => Decode(b[8 * i..8 * i + 8]))
  }

  lemma {:induction false} DecodeOfEncode(hs: seq<u64>)
    ensures DecodeList(EncodeList(hs), |hs|) == hs
  {
    hide LeBytes, LeValue;
    if hs != [] {
      var n := |hs| - 1;
      var init, b := EncodeList(hs[..n]), EncodeList(hs);
      DecodeOfEncode(hs[..n]);
      Pow256Of8();
      ValueOfBytes(hs[n], 8);
      forall i | 0 <= i < |hs| ensures Decode(b[8 * i..8 * i + 8]) == hs[i] {
        if i < n {
          assert b[8 * i..8 * i + 8] == init[8 * i..8 * i + 8];
          assert DecodeList(init, n)[i] == hs[..n][i];
        } else {
          assert b[8 * n..8 * n + 8] == LeBytes(hs[n], 8);
        }
      }
    }
  }

  lemma DecodePrefix(b: bytes, n: nat)
    requires n > 0 && |b| == 8 * n
    ensures DecodeList(b, n)[..n - 1] == DecodeList(b[..8 * n - 8], n - 1)
  {
    var init := b[..8 * n - 8];
    forall i | 0 <= i < n - 1 ensures DecodeList(b, n)[i] == DecodeList(init, n - 1)[i] {
      assert b[8 * i..8 * i + 8] == init[8 * i..8 * i + 8];
    }
  }

  lemma EntryRoundTrip(b: bytes)
    requires |b| == 8
    ensures LeBytes(Decode(b), 8) == b
  {
    BytesOfValue(b);
  }

  lemma {:induction false} EncodeOfDecode(b: bytes, n: nat)
    requires |b| == 8 * n
    ensures EncodeList(DecodeList(b, n)) == b
  {
    hide LeBytes, Decode;
    if n > 0 {
      var init, last := b[..8 * n - 8], b[8 * n - 8..];
      EncodeOfDecode(init, n - 1);
      DecodePrefix(b, n);
      EntryRoundTrip(last);
      assert DecodeList(b, n)[n - 1] == Decode(last) by {
        assert b[8 * (n - 1)..8 * (n - 1) + 8] == last;
      }
      assert b == init + last;
    }
  }

  /** Two blobs that decode to the same list are the same bytes. */
  lemma DecodeInjective(a: bytes, b: bytes, n: nat)
    requires |a| == |b| == 8 * n
    requires DecodeList(a, n) == DecodeList(b, n)
    ensures a == b
  {
    EncodeOfDecode(a, n);
    EncodeOfDecode(b, n);
  }
}
