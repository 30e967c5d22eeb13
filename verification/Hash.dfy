/** 64-bit FNV-1a. The generator and the sinkhole each carry this loop; both are this function. */
module Hash {
  import opened Bytes
  import opened Bits

  const FNV_BASIS: u64 := 0xcbf29ce484222325
  const FNV_PRIME: u64 := 0x100000001b3

  function Xor8(a: byte, b: byte): (r: byte) {
    Pow2Values();
    Xor(a, b, 8)
  }

  /** h ^ b for a byte b: only the low eight bits of h can change. */
  function XorLow(h: u64, b: byte): u64 {
    h - h % 256 + Xor8(h % 256, b)
  }

  function FnvStep(h: u64, b: byte): u64 {
    XorLow(h, b) * FNV_PRIME % TWO_64
  }

  function DomainHash(s: bytes): u64 {
    if s == [] then FNV_BASIS else FnvStep(DomainHash(s[..|s| - 1]), s[|s| - 1])
  }

  method ComputeDomainHash(s: bytes) returns (h: u64)
    ensures h == DomainHash(s)
  {
    h := FNV_BASIS;
    assert s[..0] == [];
    for i := 0 to |s|
      invariant h == DomainHash(s[..i])
    {
      assert s[..i + 1][..i] == s[..i];
      h := XorLow(h, s[i]);
      h := h * FNV_PRIME % TWO_64;
    }
    assert s[..|s|] == s;
  }

  // ---- no byte is forgotten -----------------------------------------------------------------------------

  /** The prime's inverse modulo 2^64, and the quotient of their product. */
  const PRIME_INVERSE: int := 0xce965057aff6957b
  const PRIME_QUOTIENT: int := 0xce9650590f

  /** Multiplying by the prime loses nothing. */
  lemma PrimeCancels(x: u64, y: u64)
    requires x * FNV_PRIME % TWO_64 == y * FNV_PRIME % TWO_64
    ensures x == y
  {
    var k := x * FNV_PRIME / TWO_64 - y * FNV_PRIME / TWO_64;
    assert (x - y) * FNV_PRIME == k * TWO_64;
    assert FNV_PRIME * PRIME_INVERSE == 1 + PRIME_QUOTIENT * TWO_64;
    assert x - y == (k * PRIME_INVERSE - (x - y) * PRIME_QUOTIENT) * TWO_64;
  }

  lemma XorLowCancels(g: u64, h: u64, a: byte, b: byte)
    requires XorLow(g, a) == XorLow(h, b)
    ensures Xor8(g % 256, a) == Xor8(h % 256, b) && g - g % 256 == h - h % 256
  {
    hide Xor8;
  }

  /** A step is a bijection of the accumulator and injective in the byte. */
  lemma StepInjective(g: u64, h: u64, a: byte, b: byte)
    requires FnvStep(g, a) == FnvStep(h, b)
    ensures a == b ==> g == h
    ensures g == h ==> a == b
  {
    hide XorLow;
    PrimeCancels(XorLow(g, a), XorLow(h, b));
    XorLowCancels(g, h, a, b);
    Pow2Values();
    hide Xor;
    if a == b {
      XorSymmetric(g % 256, a, 8);
      XorSymmetric(h % 256, a, 8);
      XorInjective(a, g % 256, h % 256, 8);
    }
    if g == h {
      XorInjective(g % 256, a, b, 8);
    }
  }

  lemma HashSnoc(s: bytes, c: byte)
    ensures DomainHash(s + [c]) == FnvStep(DomainHash(s), c)
  {
    hide FnvStep;
    assert (s + [c])[..|s|] == s;
  }

  lemma LastApart(s: bytes, t: bytes)
    requires t != []
    ensures s + t == s + t[..|t| - 1] + [t[|t| - 1]]
  {
  }

  /** Different hashes stay different, whatever follows. */
  lemma {:induction false} SameTail(s: bytes, s': bytes, t: bytes)
    requires DomainHash(s) != DomainHash(s')
    ensures DomainHash(s + t) != DomainHash(s' + t)
  {
    if t == [] {
      assert s + t == s && s' + t == s';
    } else {
      hide *;
      var init, c := t[..|t| - 1], t[|t| - 1];
      SameTail(s, s', init);
      HashSnoc(s + init, c);
      HashSnoc(s' + init, c);
      LastApart(s, t);
      LastApart(s', t);
      if DomainHash(s + t) == DomainHash(s' + t) {
        StepInjective(DomainHash(s + init), DomainHash(s' + init), c, c);
      }
    }
  }

  /** Every byte counts: strings that differ in one place only never share a hash. */
  lemma EveryByteCounts(p: bytes, a: byte, b: byte, t: bytes)
    requires a != b
    ensures DomainHash(p + [a] + t) != DomainHash(p + [b] + t)
  {
    hide *;
    HashSnoc(p, a);
    HashSnoc(p, b);
    if DomainHash(p + [a]) == DomainHash(p + [b]) {
      StepInjective(DomainHash(p), DomainHash(p), a, b);
    }
    SameTail(p + [a], p + [b], t);
  }

  // ---- vectors --------------------------------------------------------------------------------------------

  /** The reference vectors both firmwares and the Go generator are pinned to. */
  lemma PinnedVectors()
    ensures DomainHash(Ascii("")) == 0xcbf29ce484222325
    ensures DomainHash(Ascii("a")) == 0xaf63dc4c8601ec8c
  {
    var a := Ascii("a");
    assert a == [97] && a[..0] == [];
    VectorXor();
    hide XorLow, Xor8;
  }

  /** One more byte of a vector: x is the xor of the low byte, q the part of the product beyond 64 bits. */
  lemma Step(s: bytes, c: byte, h: u64, x: byte, q: nat, next: u64) returns (s': bytes)
    requires DomainHash(s) == h && Xor8(h % 256, c) == x
    requires (h - h % 256 + x) * FNV_PRIME == q * TWO_64 + next
    ensures s' == s + [c] && DomainHash(s') == next
  {
    HashSnoc(s, c);
    hide Xor8, DomainHash;
    s' := s + [c];
  }

  /** A whole name, so that the order of its bytes is pinned too. */
  lemma DomainVector()
    ensures DomainHash(Ascii("example.com")) == 0x576846634e2714c6
  {
    VectorXors();
    hide Xor8, DomainHash;
    var s := [];
    EmptyHash();
    s := Step(s, 101, 0xcbf29ce484222325, 0x40, 0xcbf29ce5de, 0xaf63d84c8601e5c0);
    s := Step(s, 120, 0xaf63d84c8601e5c0, 0xb8, 0xaf63d84db0, 0x088e4207b53957a8);
    s := Step(s, 97, 0x088e4207b53957a8, 0xc9, 0x88e4207c3, 0xc311fc18f0702a8b);
    s := Step(s, 109, 0xc311fc18f0702a8b, 0xe6, 0xc311fc1a3b, 0xe7ba44608e98e4d2);
    s := Step(s, 112, 0xe7ba44608e98e4d2, 0xa2, 0xe7ba446218, 0x5a66d2124dcc7f46);
    s := Step(s, 108, 0x5a66d2124dcc7f46, 0x2a, 0x5a66d212e7, 0x69361f1a327c145e);
    s := Step(s, 101, 0x69361f1a327c145e, 0x3b, 0x69361f1ae5, 0x430b1483c8d66041);
    s := Step(s, 46, 0x430b1483c8d66041, 0x6f, 0x430b14843a, 0xc2344aee4445dc9d);
    s := Step(s, 99, 0xc2344aee4445dc9d, 0xfe, 0xc2344aef8e, 0x44b850de02b6839a);
    s := Step(s, 111, 0x44b850de02b6839a, 0xf5, 0x44b850de77, 0x7bb55e3e9c22394f);
    s := Step(s, 109, 0x7bb55e3e9c22394f, 0x22, 0x7bb55e3f6e, 0x576846634e2714c6);
    assert s == Ascii("example.com");
  }

  lemma EmptyHash()
    ensures DomainHash([]) == FNV_BASIS
  {
  }

  lemma VectorXors()
    ensures Xor8(0x25, 101) == 0x40 && Xor8(0xc0, 120) == 0xb8 && Xor8(0xa8, 97) == 0xc9
    ensures Xor8(0x8b, 109) == 0xe6 && Xor8(0xd2, 112) == 0xa2 && Xor8(0x46, 108) == 0x2a
    ensures Xor8(0x5e, 101) == 0x3b && Xor8(0x41, 46) == 0x6f && Xor8(0x9d, 99) == 0xfe
    ensures Xor8(0x9a, 111) == 0xf5 && Xor8(0x4f, 109) == 0x22
  {
    XorByHalves(0x2, 0x5, 0x6, 0x5, 0x4, 0x0);
    XorByHalves(0xc, 0x0, 0x7, 0x8, 0xb, 0x8);
    XorByHalves(0xa, 0x8, 0x6, 0x1, 0xc, 0x9);
    XorByHalves(0x8, 0xb, 0x6, 0xd, 0xe, 0x6);
    XorByHalves(0xd, 0x2, 0x7, 0x0, 0xa, 0x2);
    XorByHalves(0x4, 0x6, 0x6, 0xc, 0x2, 0xa);
    XorByHalves(0x5, 0xe, 0x6, 0x5, 0x3, 0xb);
    XorByHalves(0x4, 0x1, 0x2, 0xe, 0x6, 0xf);
    XorByHalves(0x9, 0xd, 0x6, 0x3, 0xf, 0xe);
    XorByHalves(0x9, 0xa, 0x6, 0xf, 0xf, 0x5);
    XorByHalves(0x4, 0xf, 0x6, 0xd, 0x2, 0x2);
  }

  /** The xor of two bytes, four bits at a time. */
  lemma XorByHalves(a: nat, b: nat, c: nat, d: nat, high: nat, low: nat)
    requires a < 16 && b < 16 && c < 16 && d < 16 && Xor(a, c, 4) == high && Xor(b, d, 4) == low
    ensures Xor8(16 * a + b, 16 * c + d) == 16 * high + low
  {
    hide Xor;
    XorHalves(a, b, c, d);
  }

  lemma VectorXor()
    ensures XorLow(FNV_BASIS, 97) == FNV_BASIS - 0x25 + 0x44
  {
    assert FNV_BASIS % 256 == 0x25;
    assert Xor(0x2, 0x6, 4) == 0x4;
    assert Xor8(0x25, 97) == 0x44;
    hide Xor8;
  }
}
