/** The list builder: append hashes, then sort, dedupe, serialise and self-test. */
module Generate {
  import opened Bytes
  import opened Hash
  import opened LittleEndian
  import opened SortedList

  const INITIAL_CAPACITY: nat := 4096

  datatype Artifact = Artifact(blob: bytes, count: nat, sha256: Digest)
  datatype Outcome = Published(art: Artifact) | AllocFailed | BelowMinDomains | SelfTestFailed

  const NEGATIVE_CANARIES: seq<bytes> :=
    [Ascii("esp-hole-selftest-canary.example"), Ascii("definitely-not-blocked.invalid"), Ascii("self-test.test")]

  ghost function Distinct(hs: seq<u64>): set<u64> { set h | h in hs }

  /** True when one of the fixed never-listed names has been added. */
  ghost predicate CanaryAdded(hs: seq<u64>) {
    exists c :: c in NEGATIVE_CANARIES && DomainHash(c) in hs
  }

  /** What a successful generation publishes: the distinct added hashes, ascending, as a blob. */
  ghost predicate Publishes(sha: Sha256, added: seq<u64>, art: Artifact) {
    && VerifiedBlob(sha, art.blob, art.count, art.sha256)
    && Distinct(DecodeList(art.blob, art.count)) == Distinct(added)
    && art.count == |Distinct(added)|
  }

  // ---- qsort and the dedupe scan, on values -------------------------------------------------

  predicate Sorted(s: seq<u64>) {
    forall i, j :: 0 <= i < j < |s| ==> s[i] <= s[j]
  }

  function InsertSorted(x: u64, s: seq<u64>): seq<u64> {
    if s == [] || x <= s[0] then [x] + s else [s[0]] + InsertSorted(x, s[1..])
  }

  lemma {:induction false} InsertSortedPermutes(x: u64, s: seq<u64>)
    ensures multiset(InsertSorted(x, s)) == multiset(s) + multiset{x}
  {
    if s != [] && x > s[0] {
      InsertSortedPermutes(x, s[1..]);
      assert s == [s[0]] + s[1..];
    }
  }

  lemma SortedCons(y: u64, s: seq<u64>)
    requires Sorted(s) && forall z :: z in s ==> y <= z
    ensures Sorted([y] + s)
  {
    var t := [y] + s;
    forall i, j | 0 <= i < j < |t| ensures t[i] <= t[j] {
      assert t[j] == s[j - 1];
      if i > 0 {
        assert t[i] == s[i - 1];
      } else {
        assert s[j - 1] in s;
      }
    }
  }

  lemma {:induction false} InsertSortedSorts(x: u64, s: seq<u64>)
    requires Sorted(s)
    ensures Sorted(InsertSorted(x, s))
  {
    if s == [] {
    } else if x <= s[0] {
      SortedCons(x, s);
    } else {
      var rest := InsertSorted(x, s[1..]);
      InsertSortedSorts(x, s[1..]);
      InsertSortedPermutes(x, s[1..]);
      forall z | z in rest ensures s[0] <= z {
        assert z in multiset(rest);
        assert z == x || z in s[1..];
      }
      SortedCons(s[0], rest);
    }
  }

  function SortedCopy(s: seq<u64>): seq<u64> {
    if s == [] then [] else InsertSorted(s[0], SortedCopy(s[1..]))
  }

  lemma {:induction false} SortedCopyCorrect(s: seq<u64>)
    ensures Sorted(SortedCopy(s)) && multiset(SortedCopy(s)) == multiset(s) && |SortedCopy(s)| == |s|
  {
    if s != [] {
      SortedCopyCorrect(s[1..]);
      InsertSortedSorts(s[0], SortedCopy(s[1..]));
      InsertSortedPermutes(s[0], SortedCopy(s[1..]));
      assert s == [s[0]] + s[1..];
    }
    assert |multiset(SortedCopy(s))| == |multiset(s)|;
  }

  lemma SortedCopySameSet(s: seq<u64>)
    ensures Distinct(SortedCopy(s)) == Distinct(s)
  {
    SortedCopyCorrect(s);
    forall x ensures x in SortedCopy(s) <==> x in s {
      assert x in multiset(SortedCopy(s)) <==> x in multiset(s);
    }
  }

  /** Keeps an entry when it is the first or differs from the one before it. */
  function Dedup(s: seq<u64>): (r: seq<u64>)
    ensures |r| <= |s| && (s != [] ==> r != [])
  {
    if s == [] then []
    else if |s| == 1 || s[|s| - 1] != s[|s| - 2] then Dedup(s[..|s| - 1]) + [s[|s| - 1]]
    else Dedup(s[..|s| - 1])
  }

  lemma DistinctSnoc(s: seq<u64>, x: u64)
    ensures Distinct(s + [x]) == Distinct(s) + {x}
    ensures x in s ==> Distinct(s + [x]) == Distinct(s)
  {
  }

  lemma SortedPrefix(s: seq<u64>, n: nat)
    requires Sorted(s) && n < |s|
    ensures Sorted(s[..n]) && (n > 0 ==> s[..n][n - 1] == s[n - 1] <= s[n])
  {
  }

  lemma DedupStep(s: seq<u64>, x: u64)
    ensures Dedup(s + [x]) == if s == [] || x != s[|s| - 1] then Dedup(s) + [x] else Dedup(s)
  {
    assert (s + [x])[..|s|] == s;
  }

  lemma NothingYet()
    ensures Dedup([]) == [] && EncodeList([]) == []
  {
  }

  lemma {:induction false} DedupKeepsSet(s: seq<u64>)
    requires Sorted(s)
    ensures Ascending(Dedup(s)) && Distinct(Dedup(s)) == Distinct(s)
    ensures s != [] ==> Dedup(s)[|Dedup(s)| - 1] == s[|s| - 1]
  {
    if s != [] {
      var n := |s| - 1;
      var init, x := s[..n], s[n];
      SortedPrefix(s, n);
      assert s == init + [x];
      hide *;
      DedupKeepsSet(init);
      DistinctSnoc(init, x);
      DedupStep(init, x);
      if init == [] || x != init[|init| - 1] {
        AscendingSnoc(Dedup(init), x);
        DistinctSnoc(Dedup(init), x);
      }
    }
  }

  lemma {:induction false} AscendingCardinality(s: seq<u64>)
    requires Ascending(s)
    ensures |Distinct(s)| == |s|
  {
    if s != [] {
      var init, x := s[..|s| - 1], s[|s| - 1];
      AscendingCardinality(init);
      assert s == init + [x];
      DistinctSnoc(init, x);
    }
  }

  lemma CardinalityAtMostLength(s: seq<u64>)
    ensures |Distinct(s)| <= |s|
  {
    SortedCopyCorrect(s);
    SortedCopySameSet(s);
    DedupKeepsSet(SortedCopy(s));
    AscendingCardinality(Dedup(SortedCopy(s)));
  }

  /** libc's qsort with the numeric comparison: an in-place sorted permutation of the first n entries. */
  method Qsort(a: array<u64>, n: nat)
    requires n <= a.Length
    modifies a
    ensures a[..n] == SortedCopy(old(a[..n]))
    ensures a[n..] == old(a[n..])
  {
    var sorted := SortedCopy(a[..n]);
    SortedCopyCorrect(a[..n]);
    forall i | 0 <= i < n {
      a[i] := sorted[i];
    }
  }

  // ---- the builder ----------------------------------------------------------------------------

  class Builder {
    const minDomains: nat
    const sha: Sha256
    var hashes: array<u64>  // capacity is its length; length 0 stands for NULL
    var count: nat
    ghost var copied: nat   // entries moved by realloc so far

    ghost predicate Valid()
      reads this
    {
      && count <= hashes.Length
      && (hashes.Length > 0 ==> hashes.Length == copied + INITIAL_CAPACITY)
      && (hashes.Length == 0 ==> copied == 0)
      && (hashes.Length > INITIAL_CAPACITY ==> hashes.Length < 2 * count)
    }

    ghost function Contents(): seq<u64>
      reads this, hashes
      requires Valid()
    {
      hashes[..count]
    }

    constructor (minDomains: nat, sha: Sha256)
      ensures Valid() && Contents() == [] && fresh(hashes)
      ensures this.minDomains == minDomains && this.sha == sha
    {
      this.minDomains := minDomains;
      this.sha := sha;
      hashes := new u64[0];
      count := 0;
      copied := 0;
    }

    /** Doubles the capacity until it suffices; allocOk is whether realloc succeeds. */
    method Reserve(minCapacity: nat, allocOk: bool) returns (ok: bool)
      requires Valid()
      modifies this
      ensures ok <==> (minCapacity <= old(hashes.Length) || allocOk)
      ensures count == old(count) <= hashes.Length
      ensures hashes[..count] == old(hashes[..count])
      ensures hashes == old(hashes) || fresh(hashes)
      ensures ok ==> minCapacity <= hashes.Length
      ensures !ok || minCapacity <= old(hashes.Length) ==> hashes == old(hashes) && copied == old(copied)
      ensures ok && minCapacity == old(hashes.Length) + 1 ==>
                && copied == old(copied) + old(hashes.Length)
                && hashes.Length == if old(hashes.Length) > 0 then 2 * old(hashes.Length) else INITIAL_CAPACITY
    {
      if hashes.Length >= minCapacity {
        return true;
      }
      var newCap := if hashes.Length > 0 then hashes.Length * 2 else INITIAL_CAPACITY;
      ghost var first := newCap;
      while newCap < minCapacity
        invariant newCap >= first && (minCapacity <= first ==> newCap == first)
      {
        newCap := newCap * 2;
      }
      if !allocOk {
        return false;
      }
      var grown := new u64[newCap];
      forall i | 0 <= i < hashes.Length {
        grown[i] := hashes[i];
      }
      copied := copied + hashes.Length;
      hashes := grown;
      return true;
    }

    method Add(domain: bytes, allocOk: bool) returns (ok: bool)
      requires Valid()
      modifies this, hashes
      ensures Valid() && (hashes == old(hashes) || fresh(hashes))
      ensures ok <==> (old(count) < old(hashes.Length) || allocOk)
      ensures Contents() == if ok then old(Contents()) + [DomainHash(domain)] else old(Contents())
      ensures copied == 0 || copied < 2 * count
    {
      ok := Reserve(count + 1, allocOk);
      if !ok {
        return;
      }
      var h := ComputeDomainHash(domain);
      hashes[count] := h;
      count := count + 1;
    }

    /**
     * Sorts the added hashes in place, writes the distinct ones into a fresh blob and self-tests it.
     * allocOk is whether the blob allocation succeeds; a zero-size request yields NULL.
     */
    method Finish(allocOk: bool) returns (r: Outcome)
      requires Valid()
      modifies hashes
      ensures Valid() && Contents() == if count < minDomains then old(Contents()) else SortedCopy(old(Contents()))
      ensures r.Published? ==> Publishes(sha, old(Contents()), r.art) && r.art.count >= minDomains && r.art.count >= 1
      ensures r.AllocFailed? <==> count >= minDomains && (count == 0 || !allocOk)
      ensures r.BelowMinDomains? <==>
                count < minDomains || (count > 0 && allocOk && |Distinct(old(Contents()))| < minDomains)
      ensures r.SelfTestFailed? <==>
                count > 0 && allocOk && |Distinct(old(Contents()))| >= minDomains && CanaryAdded(old(Contents()))
    {
      ghost var added := Contents();
      CardinalityAtMostLength(added);
      SortedCopyCorrect(added);
      if count < minDomains {
        return BelowMinDomains;
      }
      Qsort(hashes, count);
      SortedCopySameSet(added);
      ghost var sorted := SortedCopy(added);
      assert hashes[..count] == sorted;
      if count == 0 || !allocOk {
        return AllocFailed;
      }
      DedupKeepsSet(sorted);
      AscendingCardinality(Dedup(sorted));
      var blob, n := Serialize(hashes, count);
      DecodeOfEncode(Dedup(sorted));
      if n < minDomains {
        return BelowMinDomains;
      }
      var art := Artifact(blob, n, sha(blob));
      r := SelfTest(art, hashes[..count]);
      forall c | c in NEGATIVE_CANARIES ensures DomainHash(c) in sorted <==> DomainHash(c) in added {
        assert DomainHash(c) in Distinct(sorted) <==> DomainHash(c) in Distinct(added);
      }
    }

    /** The dedupe scan: each new value is encoded into the blob right behind the previous one. */
    method Serialize(sorted: array<u64>, len: nat) returns (blob: bytes, n: nat)
      requires 0 < len <= sorted.Length
      ensures blob == EncodeList(Dedup(sorted[..len])) && n == |Dedup(sorted[..len])|
    {
      hide *;
      var buf := new byte[len * 8];
      n := 0;
      NothingYet();
      assert sorted[..0] == [] && buf[..0] == [];
      for i := 0 to len
        invariant n == |Dedup(sorted[..i])| <= i
        invariant buf[..8 * n] == EncodeList(Dedup(sorted[..i]))
        invariant sorted[..] == old(sorted[..])
      {
        assert sorted[..i + 1] == sorted[..i] + [sorted[i]];
        DedupStep(sorted[..i], sorted[i]);
        if i == 0 || sorted[i] != sorted[i - 1] {
          ghost var before := buf[..8 * n];
          EncodeU64(buf, n * 8, sorted[i]);
          assert buf[..8 * (n + 1)] == before + LeBytes(sorted[i], 8);
          EncodeSnoc(Dedup(sorted[..i]), sorted[i]);
          n := n + 1;
        }
      }
      blob := buf[..8 * n];
    }

    /** Verify the blob, look every added hash up in it, and check that no canary is in it. */
    method SelfTest(art: Artifact, sorted: seq<u64>) returns (r: Outcome)
      requires art.blob == EncodeList(Dedup(sorted)) && art.count == |Dedup(sorted)| && art.sha256 == sha(art.blob)
      requires Ascending(Dedup(sorted)) && Distinct(Dedup(sorted)) == Distinct(sorted)
      ensures if CanaryAdded(sorted) then r == SelfTestFailed else r == Published(art)
    {
      DecodeOfEncode(Dedup(sorted));
      hide Ascii, DomainHash, EncodeList, DecodeList, Dedup, Ascending;
      var ok := VerifyBlob(art.blob, art.count, art.sha256, sha);
      if !ok {
        return SelfTestFailed;
      }
      for i := 0 to |sorted| {
        var found, _ := BlobContains(art.blob, art.count, sorted[i]);
        assert sorted[i] in Distinct(sorted);
        if !found {
          return SelfTestFailed;
        }
      }
      for i := 0 to |NEGATIVE_CANARIES|
        invariant forall k :: 0 <= k < i ==> DomainHash(NEGATIVE_CANARIES[k]) !in sorted
      {
        var h := ComputeDomainHash(NEGATIVE_CANARIES[i]);
        var found, _ := BlobContains(art.blob, art.count, h);
        assert h in sorted <==> h in Distinct(sorted);
        if found {
          return SelfTestFailed;
        }
      }
      return Published(art);
    }
  }
}
