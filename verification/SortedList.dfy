/** Strictly ascending hash lists and the two binary searches over them. */
module SortedList {
  import opened Bytes
  import opened Bits
  import opened LittleEndian

  predicate Ascending(s: seq<u64>) {
    forall i, j :: 0 <= i < j < |s| ==> s[i] < s[j]
  }

  lemma AscendingSnoc(s: seq<u64>, x: u64)
    requires Ascending(s) && (s != [] ==> s[|s| - 1] < x)
    ensures Ascending(s + [x])
  {
    var t := s + [x];
    forall i, j | 0 <= i < j < |t| ensures t[i] < t[j] {
      assert t[i] == s[i];
      if j < |s| {
        assert t[j] == s[j];
      } else if i < |s| - 1 {
        assert s[i] < s[|s| - 1];
      }
    }
  }

  /** The neighbour-by-neighbour test the firmware runs is the same property. */
  lemma {:induction false} NeighboursSuffice(s: seq<u64>)
    requires forall i :: 0 < i < |s| ==> s[i - 1] < s[i]
    ensures Ascending(s)
  {
    if s != [] {
      var init := s[..|s| - 1];
      NeighboursSuffice(init);
      AscendingSnoc(init, s[|s| - 1]);
      assert s == init + [s[|s| - 1]];
    }
  }

  /** Number of binary digits of n; for n > 0 this is floor(log2 n) + 1. */
  function BitLength(n: nat): nat {
    if n == 0 then 0 else 1 + BitLength(n / 2)
  }

  lemma {:induction false} BitLengthIsLog(n: nat)
    requires n > 0
    ensures Pow2(BitLength(n) - 1) <= n < Pow2(BitLength(n))
  {
    if n > 1 { BitLengthIsLog(n / 2); }
  }

  lemma {:induction false} BitLengthMonotone(m: nat, n: nat)
    requires m <= n
    ensures BitLength(m) <= BitLength(n)
  {
    if m > 0 { BitLengthMonotone(m / 2, n / 2); }
  }

  lemma {:induction false} BitLengthBelow(n: nat, k: nat)
    requires n < Pow2(k)
    ensures BitLength(n) <= k
  {
    if n > 0 { BitLengthBelow(n / 2, k - 1); }
  }

  /** A full 14 MB slot is searched in at most 21 probes. */
  lemma FullSlotProbes(n: nat)
    requires 8 * n <= 0xe00000
    ensures BitLength(n) <= 21
  {
    assert Pow2(21) == 0x20_0000 by {
      assert Pow2(7) == 128;
      assert Pow2(14) == 128 * Pow2(7);
    }
    BitLengthBelow(n, 21);
  }

  /** The sinkhole's search: stops on the first equal entry. */
  method EarlyExitSearch(s: seq<u64>, hash: u64) returns (found: bool, ghost probes: nat)
    requires Ascending(s)
    ensures found <==> hash in s
    ensures probes <= BitLength(|s|)
  {
    found := false;
    probes := 0;
    var lo, hi := 0, |s|;
    while lo < hi
      invariant 0 <= lo <= hi <= |s|
      invariant hash !in s[..lo] && hash !in s[hi..]
      invariant probes + BitLength(hi - lo) <= BitLength(|s|)
    {
      var mid := lo + (hi - lo) / 2;
      var v := s[mid];
      probes := probes + 1;
      if v == hash {
        found := true;
        break;
      }
      BitLengthMonotone(hi - mid - 1, (hi - lo) / 2);
      if v < hash {
        lo := mid + 1;
      } else {
        hi := mid;
      }
    }
  }

  lemma BitLengthHalf(n: nat)
    requires n > 0
    ensures BitLength(n) == 1 + BitLength(n / 2)
  {
  }

  lemma BelowMid(s: seq<u64>, mid: nat, target: u64)
    requires Ascending(s) && mid < |s|
    ensures s[mid] < target ==> forall k :: 0 <= k <= mid ==> s[k] < target
    ensures s[mid] >= target ==> forall k :: mid <= k < |s| ==> s[k] >= target
  {
  }

  method ReadEntry(blob: bytes, count: nat, i: nat) returns (v: u64)
    requires 8 * count <= |blob| && i < count
    ensures v == DecodeList(blob, count)[i]
  {
    v := DecodeU64(blob, 8 * i);
  }

  lemma AboveFirst(s: seq<u64>, lo: nat, target: u64)
    requires Ascending(s) && lo < |s| && s[lo] >= target && forall k :: 0 <= k < lo ==> s[k] < target
    ensures target in s <==> s[lo] == target
  {
    assert forall k :: lo < k < |s| ==> s[lo] < s[k];
  }

  lemma AllBelow(s: seq<u64>, target: u64)
    requires forall k :: 0 <= k < |s| ==> s[k] < target
    ensures target !in s
  {
  }

  /** The generator's self-test search: lower bound, then one comparison, on the blob's bytes. */
  method BlobContains(blob: bytes, count: nat, target: u64) returns (found: bool, ghost probes: nat)
    requires 8 * count <= |blob| && Ascending(DecodeList(blob, count))
    ensures found <==> target in DecodeList(blob, count)
    ensures probes <= BitLength(count) + 1
  {
    hide *;
    ghost var s := DecodeList(blob, count);
    probes := 0;
    var lo, hi := 0, count;
    while lo < hi
      invariant 0 <= lo <= hi <= count
      invariant forall k :: 0 <= k < lo ==> s[k] < target
      invariant forall k :: hi <= k < count ==> target <= s[k]
      invariant probes + BitLength(hi - lo) <= BitLength(count)
    {
      var mid := lo + (hi - lo) / 2;
      var v := ReadEntry(blob, count, mid);
      BelowMid(s, mid, target);
      probes := probes + 1;
      BitLengthHalf(hi - lo);
      BitLengthMonotone(hi - mid - 1, (hi - lo) / 2);
      if v < target {
        lo := mid + 1;
      } else {
        hi := mid;
      }
    }
    found := false;
    if lo < count {
      AboveFirst(s, lo, target);
      var v := ReadEntry(blob, count, lo);
      probes := probes + 1;
      found := v == target;
    } else {
      AllBelow(s, target);
    }
  }

  /** Size/count consistency, digest and strict order: the test every stored or built blob must pass. */
  predicate VerifiedBlob(sha: Sha256, blob: bytes, count: nat, want: bytes) {
    && |blob| == 8 * count
    && sha(blob) == want
    && Ascending(DecodeList(blob, count))
  }

  method VerifyBlob(blob: bytes, count: nat, want: bytes, sha: Sha256) returns (ok: bool)
    ensures ok <==> VerifiedBlob(sha, blob, count, want)
  {
    if |blob| != count * 8 || sha(blob) != want {
      return false;
    }
    ghost var s := DecodeList(blob, count);
    var prev: u64 := 0;
    for i := 0 to count
      invariant forall k :: 0 < k < i ==> s[k - 1] < s[k]
      invariant i > 0 ==> prev == s[i - 1]
    {
      var h := ReadEntry(blob, count, i);
      if i > 0 && h <= prev {
        return false;
      }
      prev := h;
    }
    NeighboursSuffice(s);
    return true;
  }
}
