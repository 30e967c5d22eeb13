/** The manual "never block" list: hashes of up to 32 comma-separated domains. */
module Allowlist {
  import opened Bytes
  import opened Text
  import opened Hash
  import opened Normalize

  const ALLOWLIST_MAX: nat := 32
  const NORM_SIZE: nat := 256
  const COMMA: byte := ',' as int

  /** The hash of one configured entry, if it is a domain at all. */
  function EntryHash(entry: bytes): seq<u64> {
    var d := Normalized(entry, NORM_SIZE);
    if d == [] then [] else [DomainHash(d)]
  }

  function EntryHashes(entries: seq<bytes>): seq<u64> { FlatMap(EntryHash, entries) }

  lemma EmptyEntry()
    ensures EntryHash([]) == []
  {
    assert Strip([]) == [];
  }

  /** The first 32 valid entries of the configuration string. */
  function Configured(config: bytes): seq<u64> {
    var all := EntryHashes(Split(config, COMMA));
    if |all| <= ALLOWLIST_MAX then all else all[..ALLOWLIST_MAX]
  }

  /** The loop stops early at 32 hashes, and never looks at an empty last entry. */
  lemma EntriesLeft(entries: seq<bytes>, k: nat)
    requires k <= |entries| && |EntryHashes(entries[..k])| <= ALLOWLIST_MAX
    requires k == |entries| || entries[k..] == [[]] || |EntryHashes(entries[..k])| == ALLOWLIST_MAX
    ensures var all := EntryHashes(entries);
            EntryHashes(entries[..k]) == if |all| <= ALLOWLIST_MAX then all else all[..ALLOWLIST_MAX]
  {
    FlatMapFrom(EntryHash, entries, k);
    if k == |entries| {
      assert entries[..k] == entries;
    } else if entries[k..] == [[]] {
      FlatMapSingle(EntryHash, []);
      EmptyEntry();
      assert FlatMap(EntryHash, entries[k..]) == [];
    }
  }

  class Allowlist {
    var hashes: array<u64>
    var count: nat

    ghost predicate Valid()
      reads this
    {
      count <= hashes.Length == ALLOWLIST_MAX
    }

    ghost function Contents(): seq<u64>
      reads this, hashes
      requires Valid()
    {
      hashes[..count]
    }

    constructor ()
      ensures Valid() && Contents() == [] && fresh(hashes)
    {
      hashes := new u64[ALLOWLIST_MAX];
      count := 0;
    }

    /** One comma-separated entry: kept when it normalises to a domain. */
    method AddEntry(entry: bytes)
      requires Valid() && count < ALLOWLIST_MAX
      modifies this`count, hashes
      ensures Valid() && Contents() == old(Contents()) + EntryHash(entry)
    {
      var norm := NormalizeDomain(entry, NORM_SIZE);
      if |norm| > 0 {
        var h := ComputeDomainHash(norm);
        hashes[count] := h;
        count := count + 1;
      }
    }

    method Init(config: bytes)
      requires Valid() && 0 !in config
      modifies this`count, hashes
      ensures Valid() && Contents() == Configured(config)
    {
      hide EntryHash, Join, Split;
      count := 0;
      var p := 0;
      ghost var entries, k, done: seq<u64> := Split(config, COMMA), 0, [];
      FirstPiece(config, COMMA);
      while p < |config| && count < ALLOWLIST_MAX
        invariant Valid() && PieceAt(config, p, entries, k, COMMA)
        invariant Contents() == done && done == EntryHashes(entries[..k])
        decreases |config| - p
      {
        NextPiece(config, p, entries, k, COMMA);
        var len := IndexOf(config[p..], COMMA);
        AddEntry(config[p..p + len]);
        FlatMapUpTo(EntryHash, entries, k);
        done := Contents();
        p := if p + len < |config| then p + len + 1 else p + len;
        k := k + 1;
      }
      EntriesLeft(entries, k);
    }

    method Contains(hash: u64) returns (found: bool)
      requires Valid()
      ensures found <==> hash in Contents()
    {
      for i := 0 to count
        invariant hash !in hashes[..i]
      {
        if hashes[i] == hash {
          return true;
        }
      }
      return false;
    }
  }

  lemma {:induction false} EntryHashesBound(entries: seq<bytes>)
    ensures |EntryHashes(entries)| <= |entries|
  {
    if entries != [] {
      EntryHashesBound(entries[..|entries| - 1]);
    }
  }

  lemma EntryOnList(entries: seq<bytes>, entry: bytes)
    requires entry in entries && Normalized(entry, NORM_SIZE) != []
    ensures DomainHash(Normalized(entry, NORM_SIZE)) in EntryHashes(entries)
  {
    FlatMapMember(EntryHash, entries, DomainHash(Normalized(entry, NORM_SIZE)));
  }

  /** Any way of writing a domain among at most 32 entries puts that domain's own hash on the list. */
  lemma ConfiguredDomain(entries: seq<bytes>, i: nat)
    requires i < |entries| <= ALLOWLIST_MAX && AllFree(entries, COMMA)
    requires Normalized(entries[i], NORM_SIZE) != []
    ensures DomainHash(Normalized(entries[i], NORM_SIZE)) in Configured(Join(entries, COMMA))
  {
    hide Normalized, DomainHash, EntryHash, EntryHashes, Split, Join;
    SplitOfJoin(entries, COMMA);
    EntryOnList(entries, entries[i]);
    EntryHashesBound(entries);
  }

  /** How many of the entries are domains. */
  function Valids(entries: seq<bytes>): nat {
    if entries == [] then 0
    else Valids(entries[..|entries| - 1]) + if Normalized(entries[|entries| - 1], 256) == [] then 0 else 1
  }

  lemma {:induction false} HashesCounted(entries: seq<bytes>)
    ensures |EntryHashes(entries)| == Valids(entries)
  {
    hide Normalized, DomainHash;
    if entries != [] {
      HashesCounted(entries[..|entries| - 1]);
    }
  }

  lemma HashAt(entries: seq<bytes>, i: nat)
    requires i < |entries| && Normalized(entries[i], 256) != []
    ensures Valids(entries[..i]) < |EntryHashes(entries)|
    ensures EntryHashes(entries)[Valids(entries[..i])] == DomainHash(Normalized(entries[i], 256))
  {
    hide Normalized, DomainHash, FlatMap;
    HashesCounted(entries[..i]);
    FlatMapFrom(EntryHash, entries, i + 1);
    FlatMapUpTo(EntryHash, entries, i);
  }

  /** In full: the list has the hash of the n-th valid entry in place n, and 32 places at most. */
  lemma ConfiguredExactly(entries: seq<bytes>)
    requires entries != [] && AllFree(entries, 44)
    ensures var list := Configured(Join(entries, 44));
            && |list| == (if Valids(entries) <= 32 then Valids(entries) else 32)
            && forall i :: 0 <= i < |entries| && Normalized(entries[i], 256) != [] && Valids(entries[..i]) < 32 ==>
                 Valids(entries[..i]) < |list| && list[Valids(entries[..i])] == DomainHash(Normalized(entries[i], 256))
  {
    hide Normalized, DomainHash, EntryHash, EntryHashes, Split, Join, Valids;
    SplitOfJoin(entries, 44);
    HashesCounted(entries);
    forall i | 0 <= i < |entries| && Normalized(entries[i], 256) != []
      ensures Valids(entries[..i]) < |EntryHashes(entries)|
      ensures EntryHashes(entries)[Valids(entries[..i])] == DomainHash(Normalized(entries[i], 256))
    {
      HashAt(entries, i);
    }
  }
}
