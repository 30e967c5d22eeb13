/** The manifest the generator publishes and the checks the sinkhole makes on it. */
module Manifest {
  import opened Bytes
  import opened Generate

  const FORMAT: int := 2
  const MIN_DOMAINS: nat := 10000
  const VERSION_MAX: nat := 32  // including the NUL

  // ---- SHA-256 in hex ----------------------------------------------------------------------------------

  function HexDigit(n: nat): byte
    requires n < 16
  {
    if n < 10 then '0' as int + n else 'a' as int + n - 10
  }

  /** Two lower-case digits per byte. */
  function Hex(b: bytes): (s: bytes)
    ensures |s| == 2 * |b|
  {
    if b == [] then [] else Hex(b[..|b| - 1]) + [HexDigit(b[|b| - 1] / 16), HexDigit(b[|b| - 1] % 16)]
  }

  /** The value of a hex digit of either case, or -1. */
  function HexNibble(c: byte): (n: int)
    ensures -1 <= n < 16
  {
    if '0' as int <= c <= '9' as int then c - '0' as int
    else if 'a' as int <= c <= 'f' as int then c - 'a' as int + 10
    else if 'A' as int <= c <= 'F' as int then c - 'A' as int + 10
    else -1
  }

  predicate HexString(s: bytes) { forall i :: 0 <= i < |s| ==> HexNibble(s[i]) >= 0 }

  function PairValue(hi: byte, lo: byte): byte
    requires HexNibble(hi) >= 0 && HexNibble(lo) >= 0
  {
    16 * HexNibble(hi) + HexNibble(lo)
  }

  /** The digest a 64-digit hex string stands for. */
  function HexValue(s: bytes): (d: Digest)
    requires |s| == 64 && HexString(s)
  {
    seq(32, i requires 0 <= i < 32 => PairValue(s[2 * i], s[2 * i + 1]))
  }

  method ParseSha256Hex(hex: bytes) returns (d: Option<Digest>)
    ensures d == if |hex| == 64 && HexString(hex) then Some(HexValue(hex)) else None
  {
    if |hex| != 64 {
      return None;
    }
    var out := new byte[32];
    for i := 0 to 32
      invariant forall k :: 0 <= k < 2 * i ==> HexNibble(hex[k]) >= 0
      invariant forall k :: 0 <= k < i ==> out[k] == PairValue(hex[2 * k], hex[2 * k + 1])
    {
      var hi, lo := HexNibble(hex[2 * i]), HexNibble(hex[2 * i + 1]);
      if hi < 0 || lo < 0 {
        return None;
      }
      out[i] := 16 * hi + lo;
    }
    assert out[..] == HexValue(hex);
    return Some(out[..]);
  }

  const DIGITS: string := "0123456789abcdef"

  /** Digit n is the n-th of "0123456789abcdef". */
  lemma DigitOf(n: nat)
    requires n < 16
    ensures HexDigit(n) == DIGITS[n] as int && HexNibble(HexDigit(n)) == n
  {
  }

  /** A byte is read as n exactly when it is digit n, a to f in either case. */
  lemma NibbleOf(c: byte, n: nat)
    requires n < 16
    ensures HexNibble(c) == n <==> c == DIGITS[n] as int || (65 <= c <= 70 && c + 32 == DIGITS[n] as int)
  {
    DigitOf(n);
    hide DIGITS;
  }

  lemma {:induction false} HexAt(b: bytes, i: nat)
    requires i < |b|
    ensures Hex(b)[2 * i] == HexDigit(b[i] / 16) && Hex(b)[2 * i + 1] == HexDigit(b[i] % 16)
  {
    if i < |b| - 1 {
      HexAt(b[..|b| - 1], i);
    }
  }

  /** A digest prints as two of the digits per byte, the high one first. */
  lemma HexPrints(d: Digest, i: nat)
    requires i < 32
    ensures Hex(d)[2 * i] == DIGITS[d[i] / 16] as int && Hex(d)[2 * i + 1] == DIGITS[d[i] % 16] as int
  {
    HexAt(d, i);
    DigitOf(d[i] / 16);
    DigitOf(d[i] % 16);
    hide DIGITS, Hex;
  }

  /** Printing a digest and parsing it back is the identity. */
  lemma HexRoundTrip(d: Digest)
    ensures |Hex(d)| == 64 && HexString(Hex(d)) && HexValue(Hex(d)) == d
  {
    var s := Hex(d);
    forall i | 0 <= i < 32
      ensures HexNibble(s[2 * i]) == d[i] / 16 && HexNibble(s[2 * i + 1]) == d[i] % 16
    {
      HexAt(d, i);
    }
    forall k | 0 <= k < 64 ensures HexNibble(s[k]) >= 0 {
      var i := k / 2;
      HexAt(d, i);
      assert k == 2 * i || k == 2 * i + 1;
    }
    assert forall i :: 0 <= i < 32 ==> HexValue(s)[i] == d[i];
  }

  // ---- the manifest -------------------------------------------------------------------------------------

  /** The fields of a JSON manifest, as far as they are present and of the expected kind. */
  datatype Document = Document(
    format: Option<int>, version: Option<bytes>, url: Option<bytes>,
    size: Option<nat>, count: Option<nat>, sha256: Option<bytes>)

  datatype Manifest = Manifest(version: bytes, size: nat, count: nat, sha256: Digest)

  /** strlcpy into a 32-byte buffer. */
  function Truncate(v: bytes): bytes { if |v| < VERSION_MAX then v else v[..VERSION_MAX - 1] }

  /** Versions of up to 31 bytes are kept as they are; of longer ones the first 31 bytes. */
  lemma TruncateKeeps(v: bytes)
    ensures |v| < 32 ==> Truncate(v) == v
    ensures |v| >= 32 ==> |Truncate(v)| == 31 && Truncate(v) <= v
  {
  }

  /** Exactly the manifests worth downloading: right format, complete, consistent sizes, above the floor. */
  predicate Acceptable(doc: Document) {
    && doc.format == Some(FORMAT)
    && doc.size.Some? && doc.count.Some? && doc.url.Some? && doc.version.Some?
    && doc.sha256.Some? && |doc.sha256.value| == 64 && HexString(doc.sha256.value)
    && doc.size.value == 8 * doc.count.value
    && doc.count.value >= MIN_DOMAINS
  }

  function Content(doc: Document): Manifest
    requires Acceptable(doc)
  {
    Manifest(Truncate(doc.version.value), doc.size.value, doc.count.value, HexValue(doc.sha256.value))
  }

  method ParseManifest(doc: Document) returns (m: Option<Manifest>)
    ensures m == if Acceptable(doc) then Some(Content(doc)) else None
  {
    if doc.format.None? || doc.format.value != FORMAT {
      return None;
    }
    var sha := None;
    if doc.sha256.Some? {
      sha := ParseSha256Hex(doc.sha256.value);
    }
    if doc.size.None? || doc.count.None? || doc.url.None? || sha.None? {
      return None;
    }
    if doc.version.None? {
      return None;
    }
    var size, count := doc.size.value, doc.count.value;
    if size != count * 8 {
      return None;
    }
    if count < MIN_DOMAINS {
      return None;
    }
    return Some(Manifest(Truncate(doc.version.value), size, count, sha.value));
  }

  /** What the generator serves for an artifact. */
  function BuildManifest(art: Artifact, version: bytes, url: bytes): Document {
    Document(Some(FORMAT), Some(version), Some(url), Some(|art.blob|), Some(art.count), Some(Hex(art.sha256)))
  }

  /** The sinkhole reads back exactly what was published, if it has at least 10000 entries. */
  lemma ManifestRoundTrip(art: Artifact, version: bytes, url: bytes)
    requires |art.blob| == 8 * art.count
    ensures var doc := BuildManifest(art, version, url);
            && (Acceptable(doc) <==> art.count >= 10000)
            && (Acceptable(doc) ==>
                  && Content(doc).size == |art.blob| && Content(doc).count == art.count
                  && Content(doc).sha256 == art.sha256
                  && Content(doc).version == if |version| < 32 then version else version[..31])
  {
    TruncateKeeps(version);
    HexRoundTrip(art.sha256);
  }
}
